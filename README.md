# msposd in Dafny

A model of `msposd.py`, the decoder for the MSPOSD on-screen-display captures that
DJI FPV goggles record alongside their video. A capture is an 18-byte file header
followed by fixed-size frame blocks. Each block holds an 8-byte frame header
(`frame_idx`, `size`) and a 60 x 22 grid of 16-bit glyph codes stored column by
column. The decoder finds tag glyphs (latitude, longitude, altitude, speed,
power) in the grid and reads the digits next to them. It then folds the readings
of all frames into a GPS track under one of the missing-value policies `skip`,
`empty` or `prev`.

The modules follow the structure of the program:

- `osd.dfy` (`Osd`): the constants of the format, the Python error kinds the code
  can raise, `code_to_char`, Python's negative indexing, `str.strip()`,
  `bytes.decode('ascii')` and little-endian words.
- `frame.dfy` (`OsdFrame`): `Frame.__init__` as a decoder of a frame block, with
  its inverse encoder. The grid accessors `cell`, `__getitem__`, `line` and
  `sline`, and `__str__` as a method with nested loops.
- `extract.dfy` (`Extraction`): `extract_value` of both fonts. It is a
  specification function and a method whose loop walks the row. The lemmas
  describe the forward and the mirrored walk.
- `split_digits.dfy` (`SplitDigits`): the iNav split-digit glyphs. Both walks of
  the iNav `extract_value` produce the text the glyph run shows when read left to
  right.
- `power.dfy` (`Power`): the Betaflight `'W'` heuristic of `extract_power`, as a
  specification and as a method with two loops.
- `quantities.dfy` (`Quantities`): the `extract_*` wrappers of both fonts, and
  the five readings one frame yields for the track.
- `reader.dfy` (`FrameStream`): the file header, the frame offsets, `get_frame`
  and the `Reader` class with its iteration cursor. The file is modelled as its
  byte sequence. The lemmas are about a recording made of a header and encoded
  frames.
- `track.dfy` (`TrackBuilder`): the policy loop of `Track.__init__`. It is a fold
  `Build` over per-frame samples, with a closed-form description of its result.
  `Track.Load` reads a capture through a `Reader` and is proved to return the
  track `TrackOf` reads from the bytes. For a capture made of a header and whole
  frames that all read without error, that track is proved equal to the fold.

Facts about the code that the model follows:

- The file header `<7sHBBBBHHB` is 18 bytes, so frame `i` starts at byte
  18 + 2648 * i (msposd.py:331-332, 363-364).
- iNav reads latitude and longitude forward (msposd.py:293-297). Only altitude,
  speed and power are read in reverse.
- The Betaflight `'W'` test looks at `ar[idx-22]` and `ar[idx+22]`, the
  neighbouring columns of the same row (msposd.py:222-223). The reading is then
  every digit in columns 0 to x of that row, whether or not the digits are
  contiguous (msposd.py:227-229).

## Model

| member | source | states |
|---|---|---|
| Osd.CodeToChar | msposd.py:96-104 | glyph 0 renders as '~', printable ASCII 0x20..0x5E as itself, anything else as 'u'; the result is always printable |
| Osd.DecodeAscii | msposd.py:202 | decoding succeeds exactly when every byte is below 0x80, character by character; otherwise UnicodeDecodeError |
| Osd.StripSpec | msposd.py:203 | strip returns the contiguous middle of the string with no whitespace at either end, and everything cut off is whitespace |
| OsdFrame.DecodeFrame | msposd.py:77-84 | frame_idx and size are the two little-endian words of the block, and cell (x, y) is the little-endian code at byte 8 + 2 * (x * 22 + y) |
| OsdFrame.DecodeEncodeFrame | msposd.py:77-84 | decoding the encoding of a frame gives the frame back |
| OsdFrame.EncodeDecodeFrame | msposd.py:77-84 | every 2648-byte block is the encoding of the frame it decodes to, so decoding loses nothing |
| OsdFrame.Cell | msposd.py:106-109 | ValueError exactly when x >= 60 or y >= 22; inside the grid it is ar[x * 22 + y]; a negative coordinate reaches another cell through Python indexing, and IndexError only below -1320 |
| OsdFrame.GetItem | msposd.py:111-114 | a two-element tuple reads that cell; any other key raises ValueError |
| OsdFrame.Line | msposd.py:116-119 | ValueError exactly when y is outside 0..21; otherwise 60 codes whose element x is cell (x, y) |
| OsdFrame.SLine | msposd.py:121-123 | ValueError exactly when line raises; otherwise 60 characters, character x being code_to_char of cell (x, y) |
| OsdFrame.Render | msposd.py:86-94 | 22 lines of 61 characters: character x of line y renders cell (x, y), and every line ends with a newline |
| Extraction.IndexOf | msposd.py:182-184 | None exactly when the tag is absent; otherwise the first position holding the tag |
| Extraction.DecodeGlyph | msposd.py:255-280 | glyphs outside the split-digit ranges, and every glyph in Betaflight, decode to themselves; the iNav half_point flag is set by 0xB1..0xBA in reverse mode and 0xA1..0xAA forward; anything added is a digit or a point |
| Extraction.AllIn | msposd.py:281 | true exactly when every character is allowed; it raises ValueError exactly when a non-byte is reached before any disallowed byte |
| Extraction.WalkLine | msposd.py:192-198 | the loop over the row collects what the walk specification collects, and stops where it stops |
| Extraction.FinishWalk | msposd.py:199-204 | the end of extract_value yields a string; its terminator is the tag in reverse mode and the code that stopped the walk otherwise; a failed decode is UnicodeDecodeError |
| Extraction.Walk | msposd.py:252-285 | the walk over the run after the tag, one glyph at a time with the half_point flag; it raises only ValueError (described by WalkPlainRun and InavWalkRun) |
| Extraction.ExtractSpec | msposd.py:173-291 | extract_value of both fonts as a function: the first occurrence, the row, the walk and the decoding (no contract; described by NotFoundIffTagAbsent, ExtractForwardPlain, ExtractReversePlain and the iNav lemmas) |
| Extraction.ExtractValue | msposd.py:173-204 | the method computes the extraction specification of both fonts, errors included |
| Extraction.NotFoundIffTagAbsent | msposd.py:181-184 | extract_value gives (None, None) exactly when the tag occurs nowhere in the grid, and a string otherwise unless it raises |
| Extraction.ReverseTerminatorIsTag | msposd.py:199-201 | a reverse reading always has the tag as its terminator |
| Extraction.RunAfterMirrored | msposd.py:185-189 | the walk starts one column after the tag in the row of its first occurrence, the row and x mirrored in reverse mode |
| Extraction.FirstAtIsIndexOf | msposd.py:182-185 | the first column-major occurrence at (x, y) is index x * 22 + y, and idx // 22, idx % 22 give x and y back |
| Extraction.WalkPlainRun | msposd.py:192-198 | over plain glyphs the walk collects the maximal allowed prefix of the run and stops at the first disallowed glyph, raising ValueError if it is not a byte |
| Extraction.ExtractForwardPlain | msposd.py:185-204 | forward: the reading is the stripped maximal allowed run right of the tag, and the terminator is the first disallowed code, or None at the end of the row |
| Extraction.ExtractReversePlain | msposd.py:186-204 | reverse: the reading is the stripped maximal allowed run left of the tag in reading order, and the terminator is the tag |
| SplitDigits.DefaultSplitSafe | msposd.py:239 | the default allowed set admits every digit and the point, and is ASCII |
| SplitDigits.SplitNeverStops | msposd.py:255-285 | under such an allowed set, a split-digit glyph never ends the walk, whatever the flag |
| SplitDigits.ForwardText | msposd.py:268-280 | the forward decoding of a run is the text it shows: 0xA1+d shows "d.", 0xB1+d shows ".d", and the point shared by an A followed by a B is shown once |
| SplitDigits.ReverseText | msposd.py:255-267 | the mirrored decoding, read back, is that text, apart from a point still owed to a B glyph beyond the run |
| SplitDigits.ForwardReverseAgree | msposd.py:251-288 | the forward walk and the mirrored walk read back give the same text for the same run |
| SplitDigits.SplitTextAllowed | msposd.py:281 | the decoded text of a run of admitted glyphs consists of allowed characters only |
| SplitDigits.InavWalkRun | msposd.py:252-285 | the iNav walk collects the decoded text of the maximal admitted run and stops at the first other glyph, raising ValueError if it is not a byte |
| SplitDigits.InavExtractRight | msposd.py:239-291 | forward iNav reading: the decoding of the text shown by the admitted run right of the tag, and the first other glyph as terminator |
| SplitDigits.InavExtractLeft | msposd.py:239-291 | reverse iNav reading: the decoding of the text shown by the admitted run left of the tag, with the tag as terminator |
| SplitDigits.InavExtractForward | msposd.py:239-291 | with an ASCII allowed set the forward iNav reading is that text, stripped |
| SplitDigits.InavExtractReverse | msposd.py:239-291 | with an ASCII allowed set the reverse iNav reading is that text, stripped, in reading order |
| Power.InBytes | msposd.py:222 | `int in bytes` raises ValueError exactly for values outside 0..255, and is membership otherwise |
| Power.Candidate | msposd.py:221-223 | a 'W' is accepted exactly when the previous column (wrapping to the last at x = 0) holds a digit and the next column holds 0 or a space; ValueError for a non-byte neighbour, IndexError for x = 59 |
| Power.DigitsOfSpec | msposd.py:227-229 | collecting digits fails exactly when a glyph is not a byte, with ValueError, and otherwise yields digits only |
| Power.DigitsOfConcat | msposd.py:227-229 | the digits of two runs side by side are the digits of the first followed by those of the second |
| Power.DigitsOfOne | msposd.py:228-229 | one byte glyph contributes itself when it is an ASCII digit and nothing otherwise; with DigitsOfConcat, the collection is every digit of the run, left to right |
| Power.Collect | msposd.py:224-231 | the reading of an accepted 'W': its row, columns 0..x, decoded (no contract; described by CollectFound) |
| Power.Scan | msposd.py:220-232 | the column-major scan from a position on: the first accepted 'W' is read, a raise ends the scan, and (None, None) at the end (no contract; described by ScanSkips) |
| Power.PowerSpec | msposd.py:218-232 | extract_power as a function, the scan from position 0 (no contract; described by PowerNotFoundIff and PowerFirst) |
| Power.CollectDigits | msposd.py:224-231 | the inner loop, inserting at the front, computes the digit collection of columns 0..x |
| Power.CollectFound | msposd.py:224-231 | the reading is every digit of columns 0..x of the row, left to right, with 'W' as terminator |
| Power.ExtractPower | msposd.py:218-232 | the method computes the scan specification, errors included |
| Power.PowerNotFoundIff | msposd.py:220-232 | (None, None) exactly when no position is an accepted 'W' and none raises |
| Power.PowerFirst | msposd.py:220-231 | the first position that is not a plain rejection decides the result |
| Quantities.LatOf | msposd.py:206-294 | latitude is read forward in both fonts, from 0x89 in Betaflight and from 0x03 in iNav; (None, None) exactly when that tag is absent |
| Quantities.LonOf | msposd.py:209-297 | longitude is read forward in both fonts, from 0x98 in Betaflight and from 0x04 in iNav; (None, None) exactly when that tag is absent |
| Quantities.AltOf | msposd.py:212-300 | Betaflight reads altitude forward from 0x7F; iNav reads it in reverse from 0x76, with 0x76 as terminator; (None, None) exactly when that tag is absent |
| Quantities.SpeedOf | msposd.py:215-307 | Betaflight reads speed forward from 0x70; iNav tries 0x90, 0x91, 0x92 in reverse, and a reading it returns is non-empty and ends with one of those tags |
| Quantities.FirstNonEmptyWins | msposd.py:303-306 | the first reading that is a non-empty string, or raises, is the result |
| Quantities.FirstNonEmptyNone | msposd.py:303-307 | (None, None) exactly when every reading is (None, None) or empty and none raises |
| Quantities.PowerOf | msposd.py:218-310 | Betaflight uses the 'W' heuristic and iNav reads power in reverse from 0x71; in both fonts a power reading ends with its unit glyph |
| Quantities.PowerFoundIsW | msposd.py:231 | every Betaflight power reading has 'W' as terminator |
| Quantities.SampleOf | msposd.py:414-419 | the five readings in the order lat, lon, alt, speed, power; the first one to raise decides the error |
| FrameStream.UnpackHeader | msposd.py:340-341 | struct.error exactly when the data read is not 18 bytes long |
| FrameStream.UnpackPackHeader | msposd.py:331-345 | unpacking a packed header gives it back |
| FrameStream.PackUnpackHeader | msposd.py:331-345 | every 18-byte header is the packing of what it unpacks to |
| FrameStream.ParseHeader | msposd.py:340-351 | the header is accepted exactly when 18 bytes are present, the magic is MSPOSD\0 and the version is 1; struct.error on a short file, ValueError otherwise |
| FrameStream.ReadAt | msposd.py:364-365 | seek and read return the next n bytes, fewer at the end of the file |
| FrameStream.FrameOffset | msposd.py:363-364 | the position get_frame seeks to: 18 + 2648 * index (no contract; used by FrameAt and FrameAtDecodes) |
| FrameStream.VariantOf | msposd.py:368-373 | font variant 1 selects the Betaflight frame class, 2 the iNav one, anything else none (no contract; the NotImplementedError case of FrameAt) |
| FrameStream.FrameAt | msposd.py:362-373 | get_frame: a seek error for a negative index; None exactly on a short read; NotImplementedError for an unknown font, raised only after a full read; otherwise a frame of the file's font |
| FrameStream.FrameAtDecodes | msposd.py:362-371 | in any file, a frame get_frame returns is the decoding, in the file's font, of the whole 2648-byte block at 18 + 2648 * index |
| FrameStream.Reader.GetFrame | msposd.py:362-373 | the reader's get_frame is FrameAt over its data and header (no contract of its own) |
| FrameStream.Reader.constructor | msposd.py:334-352 | a new reader holds the file and its header, and the cursor is 0 |
| FrameStream.Open | msposd.py:334-352 | Reader(fileobj) raises exactly what header parsing raises; otherwise a fresh reader over the data with its cursor at 0 |
| FrameStream.Reader.Iter | msposd.py:354-360 | __iter__ resets the cursor to 0 and returns the reader itself |
| FrameStream.Reader.Next | msposd.py:375-385 | __next__ returns get_frame at the cursor, and advances the cursor also when it stops, but not when get_frame raises |
| FrameStream.Reader.GetItem | msposd.py:387-392 | reader[i] is the frame at i; a short read becomes IndexError, and the errors of get_frame pass through |
| FrameStream.ParseRecording | msposd.py:340-351 | a recording with the right magic and version is accepted with its own header |
| FrameStream.ReadRecording | msposd.py:362-371 | in a recording of n frames, frame i < n is read back unchanged, and reading stops at n |
| TrackBuilder.PolicyOf | msposd.py:423-432 | the onerror tests: 'skip', 'empty' and 'prev' select their policies, and any other value falls through and keeps the readings as they are (no contract) |
| TrackBuilder.TimestampMs | msposd.py:439 | the timestamp is frame_idx * 1000 / fps rounded down |
| TrackBuilder.TimestampMonotone | msposd.py:439 | later frames never get earlier timestamps |
| TrackBuilder.Step | msposd.py:420-440 | a frame yields no point when all readings are None, or under skip when one is; otherwise exactly one point is appended, with its timestamp; prev changes only under prev |
| TrackBuilder.Apply | msposd.py:420-440 | the loop body computes the step of the fold on the points and prev it updates |
| TrackBuilder.Build | msposd.py:413-440 | the loop of Track.__init__ as a left fold of Step over the samples; prev keeps its five slots (described by BuildDescribed and the per-policy lemmas) |
| TrackBuilder.BuildDescribed | msposd.py:413-440 | after any sequence of frames, point j is the expected point of the j-th kept frame, and prev holds, under prev, the last truthy value of each slot over the kept frames, and stays '' under the other policies |
| TrackBuilder.PointsInOrder | msposd.py:413-440 | one point per kept frame, in frame order, none of them all-None, each with its own frame's timestamp |
| TrackBuilder.PresentFramesKept | msposd.py:420-422 | outside skip, every frame that is not all None yields a point |
| TrackBuilder.SkipKeepsComplete | msposd.py:423-425 | under skip, points come exactly from the frames with no None reading, and carry those readings unchanged ('' counts as present) |
| TrackBuilder.EmptyBlanks | msposd.py:426-431 | under empty, each value is the reading when truthy and '' otherwise |
| TrackBuilder.PrevCarries | msposd.py:432-438 | under prev, each value is the last truthy value in that slot over the kept frames so far, or '' |
| TrackBuilder.PrevKeepsTruthy | msposd.py:432-438 | under prev, a truthy reading is kept as it is |
| TrackBuilder.PrevIgnoresEmptyFrames | msposd.py:420-422 | an all-None frame changes neither the kept frames nor the values prev falls back on |
| TrackBuilder.TrackFrom | msposd.py:412-440 | the frames of the file read from an index on, each taken through the readings and the policy; the first raise ends the track, a short read ends it normally (no contract; described by TrackFromNext, TrackOfRecording and TrackOfRecordingFails) |
| TrackBuilder.TrackOf | msposd.py:411-440 | the track of a capture: a header error propagates, otherwise the frames from 0 on with the policy onerror selects |
| TrackBuilder.ReadFrame | msposd.py:414-419 | reading a frame's five values and applying the policy is one step of the fold, or the first error raised |
| TrackBuilder.Advance | msposd.py:413-440 | one turn of `for fr in rd`: an error, the stop, or the next state, with the cursor advanced and the rest of the track unchanged |
| TrackBuilder.Track.Follow | msposd.py:412-440 | the loop over the reader yields the track the file describes, or the first error raised |
| TrackBuilder.Track.Load | msposd.py:399-440 | Track(path) raises exactly when reading the capture raises, with that error; otherwise its points are the track of the capture |
| TrackBuilder.TrackOfRecording | msposd.py:411-440 | the track of a recording whose frames all read without error is the fold of the policy over their samples |
| TrackBuilder.TrackOfRecordingFails | msposd.py:413-419 | the error of the first frame whose readings raise is the error of the whole track |

## Left out

- File I/O: the capture is its byte sequence. Opening the path in Track.__init__, the file object and its seek position are not modelled. Reading at an offset is a slice of the bytes.
- `save_csv`, the `__main__` command line and the `header` tuple of column names: output only.
- `Frame.hex1`: a debug dump whose layout depends on Python's hex formatting.
- The `abc` abstract methods, the unused header fields, the unused glyph constants of the Betaflight font and the font variants other than Betaflight and iNav. Those variants are a NotImplementedError, as in the code.
- `array('H')` uses the machine's byte order; the model reads it as little-endian.
- The `bytearray` being appended and reversed is modelled as a sequence.
- The iNav speed search computes all three readings before choosing. This is equivalent, because reading a tag has no effect.
- The time slot of `prev` is written as None and never read, so the model's prev keeps five slots. A point holds its five values and its timestamp separately. In a row of the track the timestamp sits between speed and power.
- The timestamp is the exact floor of frame_idx * 1000 / fps. frame_idx is a 32-bit word, so frame_idx * 1000 is below 2^42. The float quotient then never rounds up to the next integer, and `int()` of it is that floor for every integer fps.
- TrackBuilder.Track.Load: requires a positive integer fps. A zero fps (ZeroDivisionError on the first point) and a fractional fps are not modelled.
- TrackBuilder.Track.Follow: takes the per-frame reading as a function parameter, which Track.Load instantiates with the five extractions.
- A negative index (`reader[-1]`) makes the seek fail. The model reports this as SeekError and does not tell apart the exception classes a file object may raise.
