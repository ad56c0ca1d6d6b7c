/** Reader: the file header of an .osd recording and the stream of frames after it.
    The file is given as its bytes; get_frame's seek and read become a slice of them. */
module FrameStream {
  import opened Osd
  import opened OsdFrame

  type Magic = s: seq<byte> | |s| == 7 witness [0, 0, 0, 0, 0, 0, 0]

  /** The fields of the file header, struct '<7sHBBBBHHB'. */
  datatype Header = Header(magic: Magic, version: u16, charWidth: byte, charHeight: byte,
                           fontWidth: byte, fontHeight: byte, xOffset: u16, yOffset: u16, fontVariant: byte)

  /** struct.calcsize('<7sHBBBBHHB'): 7 + 2 + 4 * 1 + 2 * 2 + 1, with no padding. */
  const HEADER_SIZE: int := 18

  /** b'MSPOSD\x00'. */
  const OSD_MAGIC: Magic := [0x4D, 0x53, 0x50, 0x4F, 0x53, 0x44, 0x00]
  const OSD_VERSION: int := 1

  function Word16(bs: seq<byte>, off: nat): (w: u16)
    requires off + 2 <= |bs|
    ensures w == LittleEndian(bs[off..off + 2])
  {
    assert Pow256(2) == 0x1_0000;
    LittleEndian(bs[off..off + 2])
  }

  /** struct.unpack of the bytes `read(HEADER_SIZE)` returned: a struct.error unless
      there are exactly 18 of them. */
  function UnpackHeader(bs: seq<byte>): (r: Result<Header>)
    ensures r.Err? <==> |bs| != HEADER_SIZE
    ensures r.Err? ==> r.error == StructError
  {
    if |bs| != HEADER_SIZE then Err(StructError)
    else Ok(Header(bs[0..7], Word16(bs, 7), bs[9], bs[10], bs[11], bs[12], Word16(bs, 13), Word16(bs, 15), bs[17]))
  }

  /** The 18 bytes a recorder writes for `h`. */
  function PackHeader(h: Header): (bs: seq<byte>)
    ensures |bs| == HEADER_SIZE
  {
    assert Pow256(2) == 0x1_0000;
    h.magic + ToLittleEndian(h.version, 2) + [h.charWidth, h.charHeight, h.fontWidth, h.fontHeight]
      + ToLittleEndian(h.xOffset, 2) + ToLittleEndian(h.yOffset, 2) + [h.fontVariant]
  }

  lemma UnpackPackHeader(h: Header)
    ensures UnpackHeader(PackHeader(h)) == Ok(h)
  {
    var bs := PackHeader(h);
    assert Pow256(2) == 0x1_0000;
    assert bs[0..7] == h.magic;
    assert bs[7..9] == ToLittleEndian(h.version, 2);
    assert bs[13..15] == ToLittleEndian(h.xOffset, 2);
    assert bs[15..17] == ToLittleEndian(h.yOffset, 2);
  }

  lemma PackUnpackHeader(bs: seq<byte>)
    requires |bs| == HEADER_SIZE
    ensures PackHeader(UnpackHeader(bs).value) == bs
  {
    var h := UnpackHeader(bs).value;
    ToLittleEndianOfBytes(bs[7..9]);
    ToLittleEndianOfBytes(bs[13..15]);
    ToLittleEndianOfBytes(bs[15..17]);
    assert bs == bs[0..7] + bs[7..9] + bs[9..13] + bs[13..15] + bs[15..17] + bs[17..18];
  }

  /** Reader.__init__ on a file whose contents are `data`: unpack the header and
      check its magic, then its version. */
  function ParseHeader(data: seq<byte>): (r: Result<Header>)
    ensures r.Ok? <==> |data| >= HEADER_SIZE && data[0..7] == OSD_MAGIC && Word16(data, 7) == OSD_VERSION
    ensures r.Ok? ==> r.value == UnpackHeader(data[..HEADER_SIZE]).value
    ensures r.Err? ==> r.error == if |data| < HEADER_SIZE then StructError else ValueError
  {
    var first := if |data| < HEADER_SIZE then data else data[..HEADER_SIZE];
    match UnpackHeader(first)
    case Err(e) => Err(e)
    case Ok(h) =>
      assert first[0..7] == data[0..7] && first[7..9] == data[7..9];
      if h.magic != OSD_MAGIC then Err(ValueError)
      else if h.version != OSD_VERSION then Err(ValueError)
      else Ok(h)
  }

  /** The position of frame `index`: the header, then one 2648-byte block per frame. */
  function FrameOffset(index: int): int {
    HEADER_SIZE + FRAME_BLOCK_SIZE * index
  }

  /** What `read(n)` returns after `seek(off)`: at most n bytes, fewer at the end. */
  function ReadAt(data: seq<byte>, off: nat, n: nat): (chunk: seq<byte>)
    ensures |chunk| == if off >= |data| then 0 else if off + n <= |data| then n else |data| - off
    ensures off + n <= |data| ==> chunk == data[off..off + n]
  {
    if off >= |data| then [] else if off + n <= |data| then data[off..off + n] else data[off..]
  }

  /** The frame class the header's font variant selects. */
  function VariantOf(fontVariant: int): Option<Variant> {
    if fontVariant == FONT_BETAFLIGHT then Some(Betaflight)
    else if fontVariant == FONT_INAV then Some(Inav)
    else None
  }

  /** Reader.get_frame: seek to the frame, read one block; a short read gives None,
      a full one a frame of the class the font variant selects. A seek before the
      start of the file raises, and so does a full read in an unsupported font. */
  function FrameAt(data: seq<byte>, header: Header, index: int): (r: Result<Option<Frame>>)
    ensures var off := FrameOffset(index);
      && (r.Err? <==> index < 0 || (off + FRAME_BLOCK_SIZE <= |data| && VariantOf(header.fontVariant).None?))
      && (r.Err? ==> r.error == if index < 0 then SeekError else NotImplementedError)
      && (r == Ok(None) <==> index >= 0 && off + FRAME_BLOCK_SIZE > |data|)
      && (r.Ok? && r.value.Some? ==> r.value.value.variant == VariantOf(header.fontVariant).value)
  {
    var off := FrameOffset(index);
    if off < 0 then Err(SeekError)
    else
      var chunk := ReadAt(data, off, FRAME_BLOCK_SIZE);
      if |chunk| != FRAME_BLOCK_SIZE then Ok(None)
      else match VariantOf(header.fontVariant)
        case None => Err(NotImplementedError)
        case Some(v) => Ok(Some(DecodeFrame(v, chunk)))
  }

  /** After a frame that was read whole, the next frame starts within the file. */
  lemma FrameFits(data: seq<byte>, header: Header, index: int)
    requires FrameAt(data, header, index).Ok? && FrameAt(data, header, index).value.Some?
    ensures 0 <= index && FrameOffset(index) < FrameOffset(index + 1) <= |data|
  {
  }

  /** In any file, a frame get_frame returns is the decoding, in the file's font, of
      the whole block at 18 + 2648 * index. */
  lemma FrameAtDecodes(data: seq<byte>, header: Header, index: int, f: Frame)
    requires FrameAt(data, header, index) == Ok(Some(f))
    ensures 0 <= FrameOffset(index) && FrameOffset(index) + FRAME_BLOCK_SIZE <= |data|
    ensures VariantOf(header.fontVariant).Some?
    ensures f == DecodeFrame(VariantOf(header.fontVariant).value,
                             data[FrameOffset(index)..FrameOffset(index) + FRAME_BLOCK_SIZE])
  {
  }

  class Reader {
    /** The contents of the file. */
    var data: seq<byte>
    var header: Header
    /** _iter_index, the cursor of the iteration. */
    var iterIndex: int

    constructor (data: seq<byte>, header: Header)
      ensures this.data == data && this.header == header && iterIndex == 0
    {
      this.data := data;
      this.header := header;
      iterIndex := 0;
    }

    /** Reader.get_frame, on the file and header this reader holds. */
    function GetFrame(index: int): Result<Option<Frame>>
      reads this
    {
      FrameAt(data, header, index)
    }

    /** Reader.__iter__: restart the iteration. */
    method Iter() returns (it: Reader)
      modifies this
      ensures it == this && iterIndex == 0
      ensures data == old(data) && header == old(header)
    {
      iterIndex := 0;
      it := this;
    }

    /** Reader.__next__: the frame at the cursor, None standing for StopIteration;
        the cursor moves on even when the iteration stops, but not when get_frame
        raises. */
    method Next() returns (r: Result<Option<Frame>>)
      modifies this
      ensures r == FrameAt(data, header, old(iterIndex))
      ensures iterIndex == if r.Err? then old(iterIndex) else old(iterIndex) + 1
      ensures data == old(data) && header == old(header)
    {
      var frame := GetFrame(iterIndex);
      if frame.Err? {
        return frame;
      }
      iterIndex := iterIndex + 1;
      r := frame;
    }

    /** Reader.__getitem__: a missing frame is an IndexError. */
    function GetItem(item: int): (r: Result<Frame>)
      reads this
      ensures r.Ok? <==> GetFrame(item).Ok? && GetFrame(item).value.Some?
      ensures r.Ok? ==> r.value == GetFrame(item).value.value
      ensures r.Err? ==> r.error == if GetFrame(item).Err? then GetFrame(item).error else IndexError
    {
      match GetFrame(item)
      case Err(e) => Err(e)
      case Ok(None) => Err(IndexError)
      case Ok(Some(frame)) => Ok(frame)
    }
  }

  /** Reader(fileobj): parse the header, then start with the cursor at 0. */
  method Open(data: seq<byte>) returns (r: Result<Reader>)
    ensures r.Err? <==> ParseHeader(data).Err?
    ensures r.Err? ==> r.error == ParseHeader(data).error
    ensures r.Ok? ==> (fresh(r.value) && r.value.data == data && r.value.header == ParseHeader(data).value
      && r.value.iterIndex == 0)
  {
    var h := ParseHeader(data);
    if h.Err? {
      return Err(h.error);
    }
    var rd := new Reader(data, h.value);
    r := Ok(rd);
  }

  /** The blocks of `frames`, one after another. */
  function EncodeFrames(frames: seq<Frame>): (bs: seq<byte>)
    ensures |bs| == FRAME_BLOCK_SIZE * |frames|
  {
    if frames == [] then [] else EncodeFrame(frames[0]) + EncodeFrames(frames[1..])
  }

  lemma {:induction false} EncodeFramesBlock(frames: seq<Frame>, i: nat)
    requires i < |frames|
    ensures EncodeFrames(frames)[FRAME_BLOCK_SIZE * i..FRAME_BLOCK_SIZE * i + FRAME_BLOCK_SIZE] == EncodeFrame(frames[i])
    decreases i
  {
    var bs := EncodeFrames(frames);
    var first := EncodeFrame(frames[0]);
    var rest := EncodeFrames(frames[1..]);
    assert bs == first + rest;
    if i > 0 {
      var k := FRAME_BLOCK_SIZE * (i - 1);
      EncodeFramesBlock(frames[1..], i - 1);
      SliceAfter(first, rest, k, k + FRAME_BLOCK_SIZE);
      assert |first| + k == FRAME_BLOCK_SIZE * i;
    } else {
      assert bs[..FRAME_BLOCK_SIZE] == first;
    }
  }

  /** A file made of a valid header and whole frame blocks. */
  function RecordFile(h: Header, frames: seq<Frame>): seq<byte> {
    PackHeader(h) + EncodeFrames(frames)
  }

  lemma SliceAfter(a: seq<byte>, b: seq<byte>, i: nat, j: nat)
    requires i <= j <= |b|
    ensures (a + b)[|a| + i..|a| + j] == b[i..j]
  {
  }

  /** A recording opens when its header carries the magic and version 1, and its
      header is read back. */
  lemma ParseRecording(h: Header, frames: seq<Frame>)
    requires h.magic == OSD_MAGIC && h.version == OSD_VERSION
    ensures ParseHeader(RecordFile(h, frames)) == Ok(h)
  {
    var data := RecordFile(h, frames);
    assert data[..HEADER_SIZE] == PackHeader(h);
    UnpackPackHeader(h);
  }

  /** Reading a recording gives back its frames, at the offsets of the format, and
      no frame after the last. */
  lemma ReadRecording(h: Header, frames: seq<Frame>, index: nat)
    requires VariantOf(h.fontVariant).Some?
    requires forall i :: 0 <= i < |frames| ==> frames[i].variant == VariantOf(h.fontVariant).value
    ensures FrameAt(RecordFile(h, frames), h, index) == if index < |frames| then Ok(Some(frames[index])) else Ok(None)
  {
    var data := RecordFile(h, frames);
    var off := FrameOffset(index);
    if index < |frames| {
      RecordingBlock(h, frames, index);
      var chunk := ReadAt(data, off, FRAME_BLOCK_SIZE);
      assert chunk == EncodeFrame(frames[index]);
      DecodeEncodeFrame(frames[index]);
    } else {
      assert |data| == HEADER_SIZE + FRAME_BLOCK_SIZE * |frames|;
    }
  }

  /** Frame `index` of a recording sits at FrameOffset(index). */
  lemma RecordingBlock(h: Header, frames: seq<Frame>, index: nat)
    requires index < |frames|
    ensures var off := FrameOffset(index);
      off + FRAME_BLOCK_SIZE <= |RecordFile(h, frames)| &&
      RecordFile(h, frames)[off..off + FRAME_BLOCK_SIZE] == EncodeFrame(frames[index])
  {
    var k := FRAME_BLOCK_SIZE * index;
    EncodeFramesBlock(frames, index);
    SliceAfter(PackHeader(h), EncodeFrames(frames), k, k + FRAME_BLOCK_SIZE);
  }
}
