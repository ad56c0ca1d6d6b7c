/** The split-digit glyphs of the iNav font. A glyph 0xA1..0xAA shows a digit
    followed by a decimal point, a glyph 0xB1..0xBA a digit preceded by one; when
    the two are adjacent, as in "1.5" drawn with two glyphs, they share one point.
    SplitText is the text such a run of glyphs shows, read left to right; the
    lemmas below prove that both walks of FrameInav.extract_value, the forward one
    and the mirrored one, produce exactly that text. */
module SplitDigits {
  import opened Osd
  import opened OsdFrame
  import opened Extraction

  predicate IsSplit(g: int) {
    IsSplitA(g) || IsSplitB(g)
  }

  /** An allowed set that admits every digit and the point: with it the walk never
      stops at a split-digit glyph. */
  predicate SplitSafe(allowed: set<byte>) {
    && CHAR_POINT in allowed
    && forall b: byte :: IsAsciiDigit(b) ==> b in allowed
  }

  predicate EndsWithA(gs: seq<Glyph>) {
    gs != [] && IsSplitA(gs[|gs| - 1])
  }

  /** What glyph g shows, given whether the glyph left of it is a digit-point
      glyph that already shows the point. */
  function Piece(afterA: bool, g: Glyph): seq<int> {
    if IsSplitA(g) then [SplitDigit(g), CHAR_POINT]
    else if IsSplitB(g) then (if afterA then [SplitDigit(g)] else [CHAR_POINT, SplitDigit(g)])
    else [g]
  }

  /** The text a run of glyphs shows, read left to right. */
  function SplitText(gs: seq<Glyph>): seq<int>
    decreases |gs|
  {
    if gs == [] then []
    else
      var init := gs[..|gs| - 1];
      SplitText(init) + Piece(EndsWithA(init), gs[|gs| - 1])
  }

  /** The bytes the walk collects from `run` when no glyph stops it. */
  function InavText(reverse: bool, run: seq<Glyph>, halfPoint: bool): seq<int>
    decreases |run|
  {
    if run == [] then []
    else
      var d := DecodeGlyph(Inav, reverse, run[0], halfPoint);
      d.chs + InavText(reverse, run[1..], d.halfPoint)
  }

  /** The allowed set of extract_value's default argument admits the split digits. */
  lemma DefaultSplitSafe()
    ensures SplitSafe(DEFAULT_ALLOWED) && AsciiSet(DEFAULT_ALLOWED)
  {
    forall b: byte | IsAsciiDigit(b) ensures b in DEFAULT_ALLOWED {
      assert b in {0x30, 0x31, 0x32, 0x33, 0x34, 0x35, 0x36, 0x37, 0x38, 0x39};
    }
  }

  /** A split-digit glyph is always admitted when the digits and the point are allowed. */
  lemma SplitNeverStops(reverse: bool, g: Glyph, halfPoint: bool, allowed: set<byte>)
    requires IsSplit(g) && SplitSafe(allowed)
    ensures AllIn(DecodeGlyph(Inav, reverse, g, halfPoint).chs, allowed) == Ok(true)
  {
    var chs := DecodeGlyph(Inav, reverse, g, halfPoint).chs;
    assert IsAsciiDigit(SplitDigit(g));
    forall i | 0 <= i < |chs| ensures chs[i] in allowed {
      assert chs[i] in chs;
    }
  }

  /** The forward walk emits, for each glyph, the piece it shows in reading order. */
  lemma ForwardPiece(g: Glyph, halfPoint: bool)
    ensures DecodeGlyph(Inav, false, g, halfPoint).chs == Piece(halfPoint, g)
  {
  }

  lemma SplitTextSnoc(gs: seq<Glyph>, g: Glyph)
    ensures SplitText(gs + [g]) == SplitText(gs) + Piece(EndsWithA(gs), g)
  {
    assert (gs + [g])[..|gs|] == gs;
  }

  predicate FlagAfter(gs: seq<Glyph>, halfPoint: bool) {
    if gs == [] then halfPoint else IsSplitA(gs[|gs| - 1])
  }

  lemma Concat3(a: seq<int>, b: seq<int>, c: seq<int>)
    ensures (a + b) + c == a + (b + c)
  {
  }

  /** Appending a glyph to the run of a forward walk appends its piece. */
  lemma {:induction false} ForwardSnoc(gs: seq<Glyph>, g: Glyph, halfPoint: bool)
    ensures InavText(false, gs + [g], halfPoint) == InavText(false, gs, halfPoint) + Piece(FlagAfter(gs, halfPoint), g)
    decreases |gs|
  {
    if gs == [] {
      assert [] + [g] == [g];
      ForwardPiece(g, halfPoint);
    } else {
      var h, t := gs[0], gs[1..];
      assert (gs + [g])[0] == h && (gs + [g])[1..] == t + [g];
      ForwardPiece(h, halfPoint);
      ForwardSnoc(t, g, IsSplitA(h));
      assert FlagAfter(t, IsSplitA(h)) == FlagAfter(gs, halfPoint);
      Concat3(Piece(halfPoint, h), InavText(false, t, IsSplitA(h)), Piece(FlagAfter(gs, halfPoint), g));
    }
  }

  /** The forward walk of extract_value decodes the split digits in reading order. */
  lemma {:induction false} ForwardText(gs: seq<Glyph>)
    ensures InavText(false, gs, false) == SplitText(gs)
    decreases |gs|
  {
    if gs != [] {
      var init, g := gs[..|gs| - 1], gs[|gs| - 1];
      assert gs == init + [g];
      ForwardText(init);
      ForwardSnoc(init, g, false);
    }
  }

  lemma ReverseSnoc<T>(init: seq<T>, g: T)
    ensures Reverse(init + [g]) == [g] + Reverse(init)
  {
    ReverseConcat(init, [g]);
    ReverseAt([g]);
  }

  /** The mirrored walk over the mirror image of `gs`, put back in reading order. */
  function MirroredText(gs: seq<Glyph>, halfPoint: bool): seq<int> {
    Reverse(InavText(true, Reverse(gs), halfPoint))
  }

  /** The mirrored walk emits each piece mirrored; a digit-point glyph whose point is
      shown by the glyph right of it shows only its digit. */
  lemma ReversePiece(g: Glyph, halfPoint: bool)
    ensures var m := Reverse(DecodeGlyph(Inav, true, g, halfPoint).chs);
      m == if IsSplitA(g) && halfPoint then [SplitDigit(g) as int] else Piece(false, g)
  {
    var chs := DecodeGlyph(Inav, true, g, halfPoint).chs;
    ReverseAt(chs);
    var m := Reverse(chs);
    if IsSplitA(g) && halfPoint {
      assert m == [SplitDigit(g) as int];
    } else if IsSplit(g) {
      assert m == [m[0], m[1]];
    } else {
      assert m == [g as int];
    }
  }

  /** One glyph of the mirrored walk, seen in reading order. */
  lemma ReverseStep(init: seq<Glyph>, g: Glyph, halfPoint: bool)
    ensures MirroredText(init + [g], halfPoint) ==
      MirroredText(init, IsSplitB(g)) + Reverse(DecodeGlyph(Inav, true, g, halfPoint).chs)
  {
    var d := DecodeGlyph(Inav, true, g, halfPoint);
    ReverseSnoc(init, g);
    var r := Reverse(init + [g]);
    assert r[0] == g && r[1..] == Reverse(init);
    assert InavText(true, r, halfPoint) == d.chs + InavText(true, Reverse(init), d.halfPoint);
    ReverseConcat(d.chs, InavText(true, Reverse(init), d.halfPoint));
  }

  /** The point a trailing digit-point glyph leaves to the glyph right of it. */
  function LentPoint(gs: seq<Glyph>, halfPoint: bool): seq<int> {
    if halfPoint && EndsWithA(gs) then [CHAR_POINT] else []
  }

  lemma ReverseCombine(init: seq<Glyph>, g: Glyph, halfPoint: bool)
    requires MirroredText(init, IsSplitB(g)) + LentPoint(init, IsSplitB(g)) == SplitText(init)
    ensures MirroredText(init + [g], halfPoint) + LentPoint(init + [g], halfPoint) == SplitText(init + [g])
  {
    ReverseStep(init, g, halfPoint);
    ReversePiece(g, halfPoint);
    SplitTextSnoc(init, g);
    var q, e, t := MirroredText(init, IsSplitB(g)), LentPoint(init, IsSplitB(g)), SplitText(init);
    var m, pc := Reverse(DecodeGlyph(Inav, true, g, halfPoint).chs), Piece(EndsWithA(init), g);
    assert LentPoint(init + [g], halfPoint) == if halfPoint && IsSplitA(g) then [CHAR_POINT] else [];
    if IsSplitB(g) {
      assert m == e + pc;
      Concat3(q, e, pc);
      assert q + m + [] == q + m;
    } else if IsSplitA(g) && halfPoint {
      assert e == [] && q == t;
      Concat3(q, m, [CHAR_POINT]);
    } else {
      assert e == [] && q == t && m == pc;
      assert q + m + [] == q + m;
    }
  }

  /** The mirrored walk over the mirror image of `gs`, mirrored back, is the text of
      `gs`; entered with the flag set (the glyph right of `gs` shows the shared point)
      it leaves out the final point of a trailing digit-point glyph. */
  lemma {:induction false} ReverseText(gs: seq<Glyph>, halfPoint: bool)
    ensures MirroredText(gs, halfPoint) + LentPoint(gs, halfPoint) == SplitText(gs)
    decreases |gs|
  {
    if gs == [] {
      assert Reverse<Glyph>([]) == [] && Reverse<int>([]) == [];
    } else {
      var init, g := gs[..|gs| - 1], gs[|gs| - 1];
      assert gs == init + [g];
      ReverseText(init, IsSplitB(g));
      ReverseCombine(init, g, halfPoint);
    }
  }

  /** Both walks read the same number off the same glyphs. */
  lemma ForwardReverseAgree(gs: seq<Glyph>)
    ensures Reverse(InavText(true, Reverse(gs), false)) == InavText(false, gs, false)
  {
    ReverseText(gs, false);
    ForwardText(gs);
    assert MirroredText(gs, false) + [] == MirroredText(gs, false);
  }

  /** Every byte of the text is allowed when the digits, the point and every other
      glyph of the run are. */
  lemma {:induction false} SplitTextAllowed(gs: seq<Glyph>, allowed: set<byte>)
    requires SplitSafe(allowed)
    requires forall i :: 0 <= i < |gs| ==> IsSplit(gs[i]) || gs[i] in allowed
    ensures forall i :: 0 <= i < |SplitText(gs)| ==> SplitText(gs)[i] in allowed
    decreases |gs|
  {
    if gs != [] {
      var init, g := gs[..|gs| - 1], gs[|gs| - 1];
      SplitTextAllowed(init, allowed);
      var p := Piece(EndsWithA(init), g);
      if IsSplit(g) {
        assert IsAsciiDigit(SplitDigit(g));
      }
      assert forall i :: 0 <= i < |p| ==> p[i] in allowed;
      var t := SplitText(gs);
      forall i | 0 <= i < |t| ensures t[i] in allowed {
        if i < |SplitText(init)| {
          assert t[i] == SplitText(init)[i];
        } else {
          assert t[i] == p[i - |SplitText(init)|];
        }
      }
    }
  }

  /** A glyph the iNav walk admits when the digits and the point are allowed. */
  predicate Admitted(g: Glyph, allowed: set<byte>) {
    IsSplit(g) || g in allowed
  }

  /** The iNav walk collects the decoded text of the maximal run of admitted glyphs
      and stops at the first other glyph (raising if it is not a byte). */
  lemma {:induction false} InavWalkRun(reverse: bool, run: seq<Glyph>, halfPoint: bool, allowed: set<byte>, n: nat)
    requires SplitSafe(allowed)
    requires n <= |run|
    requires forall j :: 0 <= j < n ==> Admitted(run[j], allowed)
    requires n < |run| ==> !Admitted(run[n], allowed)
    ensures Walk(Inav, reverse, run, halfPoint, allowed) ==
      if n < |run| && run[n] >= 0x100 then Err(ValueError)
      else Ok(Walked(InavText(reverse, run[..n], halfPoint), if n < |run| then Some(run[n]) else None))
  {
    if n > 0 {
      var g := run[0];
      var d := DecodeGlyph(Inav, reverse, g, halfPoint);
      if IsSplit(g) {
        SplitNeverStops(reverse, g, halfPoint, allowed);
      } else {
        assert d.chs == [g];
      }
      InavWalkRun(reverse, run[1..], d.halfPoint, allowed, n - 1);
      assert run[..n][1..] == run[1..][..n - 1];
    }
  }

  lemma InavForwardRow(row: seq<Glyph>, allowed: set<byte>, x: int, k: int)
    requires SplitSafe(allowed)
    requires 0 <= x < k <= |row|
    requires forall c :: x < c < k ==> Admitted(row[c], allowed)
    requires k < |row| ==> !Admitted(row[k], allowed)
    ensures Walk(Inav, false, row[x + 1..], false, allowed) ==
      if k < |row| && row[k] >= 0x100 then Err(ValueError)
      else Ok(Walked(SplitText(row[x + 1..k]), if k < |row| then Some(row[k]) else None))
  {
    var run := row[x + 1..];
    var n := k - x - 1;
    InavWalkRun(false, run, false, allowed, n);
    assert run[..n] == row[x + 1..k];
    ForwardText(row[x + 1..k]);
  }

  lemma InavExtractRight(f: Frame, tag: Glyph, allowed: set<byte>, x: int, y: int, k: int)
    requires f.variant == Inav && FirstAt(f, tag, x, y) && SplitSafe(allowed)
    requires x + 1 <= k <= MAX_X
    requires var row := Row(f, y); forall c :: x < c < k ==> Admitted(row[c], allowed)
    requires var row := Row(f, y); k < MAX_X ==> !Admitted(row[k], allowed)
    ensures var row := Row(f, y);
      ExtractSpec(f, tag, false, allowed) ==
        if k < MAX_X && row[k] >= 0x100 then Err(ValueError)
        else Conclude(SplitText(row[x + 1..k]), if k < MAX_X then Some(row[k]) else None)
  {
    FirstAtIsIndexOf(f, tag, x, y);
    RunAfterForward(f, x, y);
    InavForwardRow(Row(f, y), allowed, x, k);
    ExtractSpecWalk(f, tag, false, allowed, x * MAX_Y + y);
  }

  /** Forward iNav walk (latitude, longitude): the value is the stripped text shown
      by the maximal run of admitted glyphs right of the tag, split digits decoded in
      reading order; the terminator is the glyph after the run. */
  lemma InavExtractForward(f: Frame, tag: Glyph, allowed: set<byte>, x: int, y: int, k: int)
    requires f.variant == Inav && FirstAt(f, tag, x, y) && SplitSafe(allowed) && AsciiSet(allowed)
    requires x + 1 <= k <= MAX_X
    requires var row := Row(f, y); forall c :: x < c < k ==> Admitted(row[c], allowed)
    requires var row := Row(f, y); k < MAX_X ==> !Admitted(row[k], allowed)
    ensures DecodeAscii(SplitText(Row(f, y)[x + 1..k])).Ok?
    ensures var row := Row(f, y);
      ExtractSpec(f, tag, false, allowed) ==
        if k < MAX_X && row[k] >= 0x100 then Err(ValueError)
        else Ok(Found(Strip(DecodeAscii(SplitText(row[x + 1..k])).value), if k < MAX_X then Some(row[k]) else None))
  {
    var row := Row(f, y);
    var gs := row[x + 1..k];
    SplitTextAllowed(gs, allowed);
    ConcludePlain(SplitText(gs), if k < MAX_X then Some(row[k]) else None, allowed);
    InavExtractRight(f, tag, allowed, x, y, k);
  }

  lemma InavReverseRow(row: seq<Glyph>, allowed: set<byte>, j: int, x: int)
    requires SplitSafe(allowed)
    requires 0 <= j <= x <= |row|
    requires forall c :: j <= c < x ==> Admitted(row[c], allowed)
    requires j > 0 ==> !Admitted(row[j - 1], allowed)
    ensures Walk(Inav, true, Reverse(row[..x]), false, allowed) ==
      if j > 0 && row[j - 1] >= 0x100 then Err(ValueError)
      else Ok(Walked(InavText(true, Reverse(row[j..x]), false), if j > 0 then Some(row[j - 1]) else None))
  {
    var run := Reverse(row[..x]);
    var n := x - j;
    ReversePrefix(row, j, x);
    ReverseAt(row[..x]);
    assert forall c :: 0 <= c < x ==> run[c] == row[x - 1 - c];
    InavWalkRun(true, run, false, allowed, n);
    assert n < |run| <==> j > 0;
    assert n < |run| ==> run[n] == row[j - 1];
  }

  lemma InavExtractLeft(f: Frame, tag: Glyph, allowed: set<byte>, x: int, y: int, j: int)
    requires f.variant == Inav && FirstAt(f, tag, x, y) && SplitSafe(allowed)
    requires 0 <= j <= x
    requires var row := Row(f, y); forall c :: j <= c < x ==> Admitted(row[c], allowed)
    requires var row := Row(f, y); j > 0 ==> !Admitted(row[j - 1], allowed)
    ensures var row := Row(f, y);
      ExtractSpec(f, tag, true, allowed) ==
        if j > 0 && row[j - 1] >= 0x100 then Err(ValueError)
        else Conclude(SplitText(row[j..x]), Some(tag))
  {
    var row := Row(f, y);
    FirstAtIsIndexOf(f, tag, x, y);
    RunAfterReverse(f, x, y);
    InavReverseRow(row, allowed, j, x);
    ExtractSpecWalk(f, tag, true, allowed, x * MAX_Y + y);
    ReverseText(row[j..x], false);
    assert MirroredText(row[j..x], false) + [] == MirroredText(row[j..x], false);
  }

  /** Reverse iNav walk (altitude, speed, power): the value is the stripped text
      shown by the maximal run of admitted glyphs left of the tag, split digits
      decoded in reading order, exactly as a forward reading of those glyphs gives
      it; the terminator is the tag. */
  lemma InavExtractReverse(f: Frame, tag: Glyph, allowed: set<byte>, x: int, y: int, j: int)
    requires f.variant == Inav && FirstAt(f, tag, x, y) && SplitSafe(allowed) && AsciiSet(allowed)
    requires 0 <= j <= x
    requires var row := Row(f, y); forall c :: j <= c < x ==> Admitted(row[c], allowed)
    requires var row := Row(f, y); j > 0 ==> !Admitted(row[j - 1], allowed)
    ensures DecodeAscii(SplitText(Row(f, y)[j..x])).Ok?
    ensures var row := Row(f, y);
      ExtractSpec(f, tag, true, allowed) ==
        if j > 0 && row[j - 1] >= 0x100 then Err(ValueError)
        else Ok(Found(Strip(DecodeAscii(SplitText(row[j..x])).value), Some(tag)))
  {
    var row := Row(f, y);
    var gs := row[j..x];
    SplitTextAllowed(gs, allowed);
    ConcludePlain(SplitText(gs), Some(tag), allowed);
    InavExtractLeft(f, tag, allowed, x, y, j);
  }
}
