/** Value extraction (FrameBetaflight.extract_value and FrameInav.extract_value):
    find the first tag glyph, take its row, and walk right (or left) from it,
    collecting the allowed characters up to the first one that is not allowed.
    The iNav font also decodes its split-digit glyphs during the walk. */
module Extraction {
  import opened Osd
  import opened OsdFrame

  /** What extract_value returns: (None, None) when the tag is absent,
      otherwise the stripped text and the glyph that ended it. */
  datatype Extracted = NotFound | Found(value: string, next: Option<Glyph>)

  /** array.index: the first position of `tag`, if any. */
  function IndexOf(ar: seq<Glyph>, tag: Glyph): (r: Option<nat>)
    ensures r.None? <==> tag !in ar
    ensures r.Some? ==> r.value < |ar| && ar[r.value] == tag && forall j :: 0 <= j < r.value ==> ar[j] != tag
  {
    if ar == [] then None
    else if ar[0] == tag then Some(0)
    else match IndexOf(ar[1..], tag)
      case None => None
      case Some(i) => Some(i + 1)
  }

  /** The iNav glyphs 0xA1..0xAA: digit 0..9 followed by a decimal point. */
  predicate IsSplitA(g: int) {
    0xA1 <= g <= 0xAA
  }

  /** The iNav glyphs 0xB1..0xBA: digit 0..9 preceded by a decimal point. */
  predicate IsSplitB(g: int) {
    0xB1 <= g <= 0xBA
  }

  /** The ASCII digit a split-digit glyph carries. */
  function SplitDigit(g: int): (d: byte)
    requires IsSplitA(g) || IsSplitB(g)
    ensures IsAsciiDigit(d)
  {
    if IsSplitA(g) then g - 0xA1 + CHAR_ZERO else g - 0xB1 + CHAR_ZERO
  }

  /** The bytes one glyph contributes to the walk and the new half_point flag. */
  datatype Decoded = Decoded(chs: seq<int>, halfPoint: bool)

  /** One step of the walk over the (possibly mirrored) line. Betaflight passes
      every glyph through; iNav expands a split-digit glyph into its digit and its
      point, and leaves out the point an adjacent glyph has already emitted. */
  function DecodeGlyph(variant: Variant, reverse: bool, ch: Glyph, halfPoint: bool): (d: Decoded)
    ensures !(IsSplitA(ch) || IsSplitB(ch)) || variant == Betaflight ==> d.chs == [ch]
    ensures variant == Inav ==> d.halfPoint == if reverse then IsSplitB(ch) else IsSplitA(ch)
    ensures forall b :: b in d.chs && b != ch ==> IsAsciiDigit(b) || b == CHAR_POINT
  {
    if variant == Betaflight then Decoded([ch], halfPoint)
    else if reverse then
      if IsSplitA(ch) then
        if halfPoint then Decoded([SplitDigit(ch)], false) else Decoded([CHAR_POINT, SplitDigit(ch)], false)
      else if IsSplitB(ch) then Decoded([SplitDigit(ch), CHAR_POINT], true)
      else Decoded([ch], false)
    else
      if IsSplitA(ch) then Decoded([SplitDigit(ch), CHAR_POINT], true)
      else if IsSplitB(ch) then
        if halfPoint then Decoded([SplitDigit(ch)], false) else Decoded([CHAR_POINT, SplitDigit(ch)], false)
      else Decoded([ch], false)
  }

  /** `all(x in allowed_chars for x in chs)`: evaluated left to right, stopping at
      the first byte not allowed; `int in bytes` raises for an int that is not a byte. */
  function AllIn(chs: seq<int>, allowed: set<byte>): (r: Result<bool>)
    ensures r == Ok(true) <==> forall i :: 0 <= i < |chs| ==> chs[i] in allowed
    ensures (forall i :: 0 <= i < |chs| ==> 0 <= chs[i] < 0x100) ==> r.Ok?
    ensures r.Err? <==> exists i :: 0 <= i < |chs| && !(0 <= chs[i] < 0x100) && forall j :: 0 <= j < i ==> chs[j] in allowed
    ensures r.Err? ==> r.error == ValueError
  {
    if chs == [] then Ok(true)
    else if !(0 <= chs[0] < 0x100) then Err(ValueError)
    else if chs[0] in allowed then
      var rest := AllIn(chs[1..], allowed);
      assert forall i :: 1 <= i < |chs| ==> chs[i] == chs[1..][i - 1];
      rest
    else Ok(false)
  }

  /** The state in which the walk ends: the bytes collected and the glyph that
      stopped it (None when it reached the end of the line). */
  datatype Walked = Walked(text: seq<int>, stop: Option<Glyph>)

  function Prepend(chs: seq<int>, r: Result<Walked>): (r': Result<Walked>)
    ensures r'.Err? <==> r.Err?
    ensures r.Err? ==> r' == r
    ensures r.Ok? ==> r' == Ok(Walked(chs + r.value.text, r.value.stop))
  {
    match r
    case Err(e) => Err(e)
    case Ok(w) => Ok(Walked(chs + w.text, w.stop))
  }

  lemma PrependNothing(r: Result<Walked>)
    ensures Prepend([], r) == r
  {
    if r.Ok? {
      assert [] + r.value.text == r.value.text;
    }
  }

  /** The walk of extract_value over `run`, the part of the line after the tag. */
  function Walk(variant: Variant, reverse: bool, run: seq<Glyph>, halfPoint: bool, allowed: set<byte>): (r: Result<Walked>)
    ensures r.Err? ==> r.error == ValueError
    decreases |run|
  {
    if run == [] then Ok(Walked([], None))
    else
      var d := DecodeGlyph(variant, reverse, run[0], halfPoint);
      match AllIn(d.chs, allowed)
      case Err(e) => Err(e)
      case Ok(admitted) =>
        if admitted then Prepend(d.chs, Walk(variant, reverse, run[1..], d.halfPoint, allowed))
        else Ok(Walked([], Some(run[0])))
  }

  lemma PrependAssoc(a: seq<int>, b: seq<int>, r: Result<Walked>)
    ensures Prepend(a, Prepend(b, r)) == Prepend(a + b, r)
  {
    if r.Ok? {
      assert a + (b + r.value.text) == (a + b) + r.value.text;
    }
  }

  lemma WalkStep(variant: Variant, reverse: bool, run: seq<Glyph>, halfPoint: bool, allowed: set<byte>)
    requires run != []
    ensures var d := DecodeGlyph(variant, reverse, run[0], halfPoint);
      Walk(variant, reverse, run, halfPoint, allowed) ==
        match AllIn(d.chs, allowed)
        case Err(e) => Err(e)
        case Ok(admitted) =>
          if admitted then Prepend(d.chs, Walk(variant, reverse, run[1..], d.halfPoint, allowed))
          else Ok(Walked([], Some(run[0])))
  {
  }

  /** How one step of the walk changes what remains to be collected. */
  lemma StepOutcome(variant: Variant, reverse: bool, run: seq<Glyph>, halfPoint: bool, allowed: set<byte>,
                    sl: seq<int>, total: Result<Walked>)
    requires run != []
    requires total == Prepend(sl, Walk(variant, reverse, run, halfPoint, allowed))
    ensures var d := DecodeGlyph(variant, reverse, run[0], halfPoint);
      match AllIn(d.chs, allowed)
      case Err(e) => total == Err(e)
      case Ok(admitted) =>
        if admitted then total == Prepend(sl + d.chs, Walk(variant, reverse, run[1..], d.halfPoint, allowed))
        else total == Ok(Walked(sl, Some(run[0])))
  {
    var d := DecodeGlyph(variant, reverse, run[0], halfPoint);
    WalkStep(variant, reverse, run, halfPoint, allowed);
    PrependAssoc(sl, d.chs, Walk(variant, reverse, run[1..], d.halfPoint, allowed));
    assert sl + [] == sl;
  }

  /** The end of extract_value: decode the collected bytes as ASCII and strip the text. */
  function Conclude(sl: seq<int>, next: Option<Glyph>): (r: Result<Extracted>)
    ensures r.Ok? <==> DecodeAscii(sl).Ok?
    ensures r.Ok? ==> r.value.Found? && r.value.next == next
    ensures r.Err? ==> r.error == UnicodeDecodeError
  {
    match DecodeAscii(sl)
    case Err(e) => Err(e)
    case Ok(s) => Ok(Found(Strip(s), next))
  }

  /** Undo the mirroring of a reverse walk; the terminator reported is then the tag. */
  function Finish(text: seq<int>, stop: Option<Glyph>, reverse: bool, tag: Glyph): (r: Result<Extracted>)
    ensures r.Ok? ==> r.value.Found?
    ensures r.Ok? && reverse ==> r.value.next == Some(tag)
    ensures r.Ok? && !reverse ==> r.value.next == stop
    ensures r.Err? ==> r.error == UnicodeDecodeError
  {
    if reverse then Conclude(Reverse(text), Some(tag)) else Conclude(text, stop)
  }

  /** The glyphs the walk visits: the tag's row right of the tag, or in reverse
      mode the part left of the tag read from right to left (which is what follows
      the tag in the mirrored line). */
  function RunAfter(f: Frame, idx: nat, reverse: bool): (run: seq<Glyph>)
    requires idx < MAX_T
  {
    var x, y := idx / MAX_Y, idx % MAX_Y;
    var row := Row(f, y);
    if reverse then Reverse(row[..x]) else row[x + 1..]
  }

  /** RunAfter is the part of the (possibly mirrored) line after the (mirrored) column of the tag. */
  lemma RunAfterMirrored(f: Frame, idx: nat, reverse: bool)
    requires idx < MAX_T
    ensures var x, y := idx / MAX_Y, idx % MAX_Y;
      var line := if reverse then Reverse(Row(f, y)) else Row(f, y);
      var start := if reverse then MAX_X - 1 - x else x;
      RunAfter(f, idx, reverse) == line[start + 1..]
  {
    if reverse {
      ReverseSuffix(Row(f, idx % MAX_Y), idx / MAX_Y);
    }
  }

  /** What extract_value(tag, reverse, allowed_chars) returns (or raises) for frame `f`. */
  function ExtractSpec(f: Frame, tag: Glyph, reverse: bool, allowed: set<byte>): Result<Extracted>
  {
    match IndexOf(f.ar, tag)
    case None => Ok(NotFound)
    case Some(idx) =>
      var w := Walk(f.variant, reverse, RunAfter(f, idx, reverse), false, allowed);
      if w.Err? then Err(w.error) else Finish(w.value.text, w.value.stop, reverse, tag)
  }

  /** The loop of extract_value: walk `line` from `start`, collecting the bytes of
      the allowed glyphs up to the first glyph that is not allowed. */
  method WalkLine(variant: Variant, reverse: bool, line: seq<Glyph>, start: nat, allowed: set<byte>)
      returns (r: Result<Walked>)
    requires start <= |line|
    ensures r == Walk(variant, reverse, line[start..], false, allowed)
  {
    ghost var total := Walk(variant, reverse, line[start..], false, allowed);
    var sl: seq<int> := [];
    var nextChar: Option<Glyph> := None;
    var halfPoint := false;
    var i := start;
    PrependNothing(total);
    while i < |line|
      invariant start <= i <= |line|
      invariant total == Prepend(sl, Walk(variant, reverse, line[i..], halfPoint, allowed))
    {
      var ch := line[i];
      var d := DecodeGlyph(variant, reverse, ch, halfPoint);
      StepOutcome(variant, reverse, line[i..], halfPoint, allowed, sl, total);
      assert line[i..][1..] == line[i + 1..];
      halfPoint := d.halfPoint;
      var admitted := AllIn(d.chs, allowed);
      if admitted.Err? {
        return Err(admitted.error);
      }
      if admitted.value {
        sl := sl + d.chs;
      } else {
        nextChar := Some(ch);
        return Ok(Walked(sl, nextChar));
      }
      i := i + 1;
    }
    assert line[i..] == [] && sl + [] == sl;
    r := Ok(Walked(sl, nextChar));
  }

  /** extract_value of both Frame subclasses; `f.variant` selects the subclass. */
  method ExtractValue(f: Frame, tag: Glyph, reverse: bool, allowed: set<byte>) returns (r: Result<Extracted>)
    ensures r == ExtractSpec(f, tag, reverse, allowed)
  {
    var found := IndexOf(f.ar, tag);
    if found.None? {
      return Ok(NotFound);
    }
    var idx := found.value;
    var x, y := idx / MAX_Y, idx % MAX_Y;
    var line := Line(f, y).value;
    if reverse {
      line := Reverse(line);
      x := MAX_X - 1 - x;
    }
    RunAfterMirrored(f, idx, reverse);
    ExtractSpecWalk(f, tag, reverse, allowed, idx);
    var w := WalkLine(f.variant, reverse, line, x + 1, allowed);
    if w.Err? {
      return Err(w.error);
    }
    r := FinishWalk(w.value.text, w.value.stop, reverse, tag);
  }

  /** The tail of extract_value: put a reverse walk's bytes back in reading
      order, decode them as ASCII and strip the text. */
  method FinishWalk(text: seq<int>, stop: Option<Glyph>, reverse: bool, tag: Glyph) returns (r: Result<Extracted>)
    ensures r == Finish(text, stop, reverse, tag)
  {
    var sl, nextChar := text, stop;
    if reverse {
      sl := Reverse(sl);
      nextChar := Some(tag);
    }
    var s := DecodeAscii(sl);
    if s.Err? {
      return Err(s.error);
    }
    r := Ok(Found(Strip(s.value), nextChar));
  }

  lemma ExtractSpecWalk(f: Frame, tag: Glyph, reverse: bool, allowed: set<byte>, idx: nat)
    requires IndexOf(f.ar, tag) == Some(idx)
    ensures var w := Walk(f.variant, reverse, RunAfter(f, idx, reverse), false, allowed);
      ExtractSpec(f, tag, reverse, allowed) == if w.Err? then Err(w.error) else Finish(w.value.text, w.value.stop, reverse, tag)
  {
  }

  /** The tag is found, Found or an error is returned; (None, None) exactly when the tag is absent. */
  lemma NotFoundIffTagAbsent(f: Frame, tag: Glyph, reverse: bool, allowed: set<byte>)
    ensures ExtractSpec(f, tag, reverse, allowed) == Ok(NotFound) <==> tag !in f.ar
    ensures tag in f.ar && ExtractSpec(f, tag, reverse, allowed).Ok? ==> ExtractSpec(f, tag, reverse, allowed).value.Found?
  {
  }

  /** In reverse mode the terminator is always the tag itself. */
  lemma ReverseTerminatorIsTag(f: Frame, tag: Glyph, allowed: set<byte>)
    ensures ExtractSpec(f, tag, true, allowed).Ok? && ExtractSpec(f, tag, true, allowed).value.Found? ==>
      ExtractSpec(f, tag, true, allowed).value.next == Some(tag)
  {
  }

  /** A glyph the walk passes through unchanged. */
  predicate Plain(variant: Variant, g: Glyph) {
    variant == Betaflight || !(IsSplitA(g) || IsSplitB(g))
  }

  /** Over plain glyphs the walk collects the maximal allowed prefix of the run, and
      stops at the first glyph that is not allowed (raising if it is not a byte). */
  lemma {:induction false} WalkPlainRun(variant: Variant, reverse: bool, run: seq<Glyph>, halfPoint: bool, allowed: set<byte>, k: nat)
    requires k <= |run|
    requires forall j :: 0 <= j < k ==> Plain(variant, run[j]) && run[j] in allowed
    requires k < |run| ==> Plain(variant, run[k]) && run[k] !in allowed
    ensures Walk(variant, reverse, run, halfPoint, allowed) ==
      if k < |run| && run[k] >= 0x100 then Err(ValueError)
      else Ok(Walked(run[..k], if k < |run| then Some(run[k]) else None))
  {
    if k > 0 {
      var d := DecodeGlyph(variant, reverse, run[0], halfPoint);
      assert d.chs == [run[0]];
      WalkPlainRun(variant, reverse, run[1..], d.halfPoint, allowed, k - 1);
      assert [run[0]] + run[1..][..k - 1] == run[..k];
    }
  }

  /** The row and column of the first occurrence of `tag` in column-major order. */
  predicate FirstAt(f: Frame, tag: Glyph, x: int, y: int) {
    && 0 <= x < MAX_X && 0 <= y < MAX_Y
    && f.ar[x * MAX_Y + y] == tag
    && forall j :: 0 <= j < x * MAX_Y + y ==> f.ar[j] != tag
  }

  predicate AsciiSet(allowed: set<byte>) {
    forall b :: b in allowed ==> b < 0x80
  }

  lemma FirstAtIsIndexOf(f: Frame, tag: Glyph, x: int, y: int)
    requires FirstAt(f, tag, x, y)
    ensures IndexOf(f.ar, tag) == Some(x * MAX_Y + y)
    ensures (x * MAX_Y + y) / MAX_Y == x && (x * MAX_Y + y) % MAX_Y == y
  {
    var r := IndexOf(f.ar, tag);
    assert r.Some?;
    assert !(r.value < x * MAX_Y + y);
  }

  /** A reverse walk collects its text mirrored; Finish puts it back in reading order. */
  lemma FinishMirrored(plain: seq<Glyph>, stop: Option<Glyph>, tag: Glyph, allowed: set<byte>)
    requires AsciiSet(allowed) && forall i :: 0 <= i < |plain| ==> plain[i] in allowed
    ensures DecodeAscii(plain).Ok?
    ensures Finish(Reverse(plain), stop, true, tag) == Ok(Found(Strip(DecodeAscii(plain).value), Some(tag)))
  {
    var m: seq<Glyph> := Reverse(plain);
    ReverseAt(plain);
    ReverseAt<int>(m);
    var back: seq<int> := Reverse<int>(m);
    forall i | 0 <= i < |plain| ensures back[i] == plain[i] {
    }
    assert back == plain;
  }

  /** Collected text made of allowed ASCII bytes always decodes. */
  lemma ConcludePlain(sl: seq<int>, next: Option<Glyph>, allowed: set<byte>)
    requires AsciiSet(allowed) && forall i :: 0 <= i < |sl| ==> sl[i] in allowed
    ensures DecodeAscii(sl).Ok?
    ensures Conclude(sl, next) == Ok(Found(Strip(DecodeAscii(sl).value), next))
  {
  }

  /** The forward walk over the cells right of column x of row y. */
  lemma WalkRightOfTag(f: Frame, allowed: set<byte>, x: int, y: int, k: int)
    requires 0 <= x < MAX_X && 0 <= y < MAX_Y
    requires x + 1 <= k <= MAX_X
    requires var row := Row(f, y); forall c :: x < c < k ==> Plain(f.variant, row[c]) && row[c] in allowed
    requires var row := Row(f, y); k < MAX_X ==> Plain(f.variant, row[k]) && row[k] !in allowed
    ensures var row := Row(f, y);
      Walk(f.variant, false, RunAfter(f, x * MAX_Y + y, false), false, allowed) ==
        if k < MAX_X && row[k] >= 0x100 then Err(ValueError)
        else Ok(Walked(row[x + 1..k], if k < MAX_X then Some(row[k]) else None))
  {
    RunAfterForward(f, x, y);
    WalkForwardRow(f.variant, Row(f, y), allowed, x, k);
  }

  lemma RunAfterForward(f: Frame, x: int, y: int)
    requires 0 <= x < MAX_X && 0 <= y < MAX_Y
    ensures RunAfter(f, x * MAX_Y + y, false) == Row(f, y)[x + 1..]
  {
    var idx := x * MAX_Y + y;
    assert idx / MAX_Y == x && idx % MAX_Y == y;
  }

  /** The forward walk over the cells right of column x. */
  lemma WalkForwardRow(variant: Variant, row: seq<Glyph>, allowed: set<byte>, x: int, k: int)
    requires 0 <= x < k <= |row|
    requires forall c :: x < c < k ==> Plain(variant, row[c]) && row[c] in allowed
    requires k < |row| ==> Plain(variant, row[k]) && row[k] !in allowed
    ensures Walk(variant, false, row[x + 1..], false, allowed) ==
      if k < |row| && row[k] >= 0x100 then Err(ValueError)
      else Ok(Walked(row[x + 1..k], if k < |row| then Some(row[k]) else None))
  {
    var run := row[x + 1..];
    var n := k - x - 1;
    WalkPlainRun(variant, false, run, false, allowed, n);
    assert run[..n] == row[x + 1..k];
  }

  lemma ExtractRightOfTag(f: Frame, tag: Glyph, allowed: set<byte>, x: int, y: int, k: int)
    requires FirstAt(f, tag, x, y)
    requires x + 1 <= k <= MAX_X
    requires var row := Row(f, y); forall c :: x < c < k ==> Plain(f.variant, row[c]) && row[c] in allowed
    requires var row := Row(f, y); k < MAX_X ==> Plain(f.variant, row[k]) && row[k] !in allowed
    ensures var row := Row(f, y);
      ExtractSpec(f, tag, false, allowed) ==
        if k < MAX_X && row[k] >= 0x100 then Err(ValueError)
        else Finish(row[x + 1..k], if k < MAX_X then Some(row[k]) else None, false, tag)
  {
    FirstAtIsIndexOf(f, tag, x, y);
    WalkRightOfTag(f, allowed, x, y, k);
    ExtractSpecWalk(f, tag, false, allowed, x * MAX_Y + y);
  }

  /** Forward walk: the value is the stripped maximal run of allowed glyphs that
      starts right of the tag; the terminator is the glyph after the run, or None
      when the run reaches the end of the row. */
  lemma ExtractForwardPlain(f: Frame, tag: Glyph, allowed: set<byte>, x: int, y: int, k: int)
    requires FirstAt(f, tag, x, y) && AsciiSet(allowed)
    requires x + 1 <= k <= MAX_X
    requires var row := Row(f, y); forall c :: x < c < k ==> Plain(f.variant, row[c]) && row[c] in allowed
    requires var row := Row(f, y); k < MAX_X ==> Plain(f.variant, row[k]) && row[k] !in allowed
    ensures DecodeAscii(Row(f, y)[x + 1..k]).Ok?
    ensures var row := Row(f, y);
      ExtractSpec(f, tag, false, allowed) ==
        if k < MAX_X && row[k] >= 0x100 then Err(ValueError)
        else Ok(Found(Strip(DecodeAscii(row[x + 1..k]).value), if k < MAX_X then Some(row[k]) else None))
  {
    var row := Row(f, y);
    ConcludePlain(row[x + 1..k], if k < MAX_X then Some(row[k]) else None, allowed);
    ExtractRightOfTag(f, tag, allowed, x, y, k);
  }

  lemma RunAfterReverse(f: Frame, x: int, y: int)
    requires 0 <= x < MAX_X && 0 <= y < MAX_Y
    ensures RunAfter(f, x * MAX_Y + y, true) == Reverse(Row(f, y)[..x])
  {
    var idx := x * MAX_Y + y;
    assert idx / MAX_Y == x && idx % MAX_Y == y;
  }

  /** The reverse walk over the mirrored cells left of column x. */
  lemma WalkReverseRow(variant: Variant, row: seq<Glyph>, allowed: set<byte>, j: int, x: int)
    requires 0 <= j <= x <= |row|
    requires forall c :: j <= c < x ==> Plain(variant, row[c]) && row[c] in allowed
    requires j > 0 ==> Plain(variant, row[j - 1]) && row[j - 1] !in allowed
    ensures Walk(variant, true, Reverse(row[..x]), false, allowed) ==
      if j > 0 && row[j - 1] >= 0x100 then Err(ValueError)
      else Ok(Walked(Reverse(row[j..x]), if j > 0 then Some(row[j - 1]) else None))
  {
    var run := Reverse(row[..x]);
    var n := x - j;
    ReversePrefix(row, j, x);
    ReverseAt(row[..x]);
    assert forall c :: 0 <= c < x ==> run[c] == row[x - 1 - c];
    WalkPlainRun(variant, true, run, false, allowed, n);
    assert n < |run| <==> j > 0;
    assert n < |run| ==> run[n] == row[j - 1];
  }

  lemma WalkLeftOfTag(f: Frame, allowed: set<byte>, x: int, y: int, j: int)
    requires 0 <= j <= x < MAX_X && 0 <= y < MAX_Y
    requires var row := Row(f, y); forall c :: j <= c < x ==> Plain(f.variant, row[c]) && row[c] in allowed
    requires var row := Row(f, y); j > 0 ==> Plain(f.variant, row[j - 1]) && row[j - 1] !in allowed
    ensures var row := Row(f, y);
      Walk(f.variant, true, RunAfter(f, x * MAX_Y + y, true), false, allowed) ==
        if j > 0 && row[j - 1] >= 0x100 then Err(ValueError)
        else Ok(Walked(Reverse(row[j..x]), if j > 0 then Some(row[j - 1]) else None))
  {
    RunAfterReverse(f, x, y);
    WalkReverseRow(f.variant, Row(f, y), allowed, j, x);
  }

  lemma ExtractLeftOfTag(f: Frame, tag: Glyph, allowed: set<byte>, x: int, y: int, j: int)
    requires FirstAt(f, tag, x, y)
    requires 0 <= j <= x
    requires var row := Row(f, y); forall c :: j <= c < x ==> Plain(f.variant, row[c]) && row[c] in allowed
    requires var row := Row(f, y); j > 0 ==> Plain(f.variant, row[j - 1]) && row[j - 1] !in allowed
    ensures var row := Row(f, y);
      ExtractSpec(f, tag, true, allowed) ==
        if j > 0 && row[j - 1] >= 0x100 then Err(ValueError)
        else Finish(Reverse(row[j..x]), if j > 0 then Some(row[j - 1]) else None, true, tag)
  {
    FirstAtIsIndexOf(f, tag, x, y);
    WalkLeftOfTag(f, allowed, x, y, j);
    ExtractSpecWalk(f, tag, true, allowed, x * MAX_Y + y);
  }

  /** Reverse walk: the value is the stripped maximal run of allowed glyphs that
      ends left of the tag, in left-to-right reading order; the terminator is the tag. */
  lemma ExtractReversePlain(f: Frame, tag: Glyph, allowed: set<byte>, x: int, y: int, j: int)
    requires FirstAt(f, tag, x, y) && AsciiSet(allowed)
    requires 0 <= j <= x
    requires var row := Row(f, y); forall c :: j <= c < x ==> Plain(f.variant, row[c]) && row[c] in allowed
    requires var row := Row(f, y); j > 0 ==> Plain(f.variant, row[j - 1]) && row[j - 1] !in allowed
    ensures DecodeAscii(Row(f, y)[j..x]).Ok?
    ensures var row := Row(f, y);
      ExtractSpec(f, tag, true, allowed) ==
        if j > 0 && row[j - 1] >= 0x100 then Err(ValueError)
        else Ok(Found(Strip(DecodeAscii(row[j..x]).value), Some(tag)))
  {
    var row := Row(f, y);
    var stop := if j > 0 then Some(row[j - 1]) else None;
    FinishMirrored(row[j..x], stop, tag, allowed);
    ExtractLeftOfTag(f, tag, allowed, x, y, j);
  }
}
