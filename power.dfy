/** FrameBetaflight.extract_power: the Betaflight font has no power tag, so the
    power reading is recognised by its unit. The first 'W' in column-major order
    whose left neighbour (one column back) is a digit and whose right neighbour is
    blank (0 or space) is taken, and the value is every digit of its row from
    column 0 up to the 'W'. */
module Power {
  import opened Osd
  import opened OsdFrame
  import opened Extraction

  /** `v in bs` for a Python bytes object: an int that is not a byte raises. */
  function InBytes(v: int, bs: set<byte>): (r: Result<bool>)
    ensures r.Err? <==> !(0 <= v < 0x100)
    ensures r.Err? ==> r.error == ValueError
    ensures r.Ok? ==> r.value == (v in bs)
  {
    if 0 <= v < 0x100 then Ok(v in bs) else Err(ValueError)
  }

  /** b'0123456789'. */
  const DIGITS: set<byte> := {0x30, 0x31, 0x32, 0x33, 0x34, 0x35, 0x36, 0x37, 0x38, 0x39}

  /** b'\x00 '. */
  const BLANKS: set<byte> := {0x00, 0x20}

  lemma DigitsAreAsciiDigits(b: int)
    ensures b in DIGITS <==> IsAsciiDigit(b)
  {
  }

  /** Whether the glyph at idx ends a power reading: it is 'W', the cell one column
      back (ar[idx - 22], which for column 0 wraps round to column 59 of the same row)
      is a digit, and the cell one column on (ar[idx + 22], an IndexError in column 59)
      is blank. The tests run in that order and stop at the first that fails. */
  function Candidate(ar: Grid, idx: nat): (r: Result<bool>)
    requires idx < MAX_T
    ensures var left, right := ar[(idx - MAX_Y) % MAX_T], idx + MAX_Y;
      && (r == Ok(true) <==>
           ar[idx] == CHAR_W && IsAsciiDigit(left) && right < MAX_T && ar[right] in BLANKS)
      && (r == Err(ValueError) <==>
           ar[idx] == CHAR_W && (left >= 0x100 || (IsAsciiDigit(left) && right < MAX_T && ar[right] >= 0x100)))
      && (r == Err(IndexError) <==> ar[idx] == CHAR_W && IsAsciiDigit(left) && right >= MAX_T)
      && (r.Err? ==> r.error == ValueError || r.error == IndexError)
  {
    if ar[idx] != CHAR_W then Ok(false)
    else
      match InBytes(PyIndex(ar, idx - MAX_Y).value, DIGITS)
      case Err(e) => Err(e)
      case Ok(digitLeft) =>
        if !digitLeft then Ok(false)
        else match PyIndex(ar, idx + MAX_Y)
          case Err(e) => Err(e)
          case Ok(right) => InBytes(right, BLANKS)
  }

  /** The digits of `run` in order, or a ValueError when one of its glyphs is not
      a byte; DigitsOfSpec says what it returns. */
  function DigitsOf(run: seq<Glyph>): Result<seq<int>> {
    if run == [] then Ok([])
    else match InBytes(run[0], DIGITS)
      case Err(e) => Err(e)
      case Ok(isDigit) =>
        match DigitsOf(run[1..])
        case Err(e) => Err(e)
        case Ok(rest) => Ok(if isDigit then [run[0] as int] + rest else rest)
  }

  /** The reading fails exactly when a glyph of the run is not a byte, and then with
      a ValueError; otherwise it is made of digits only. */
  lemma {:induction false} DigitsOfSpec(run: seq<Glyph>)
    ensures var r := DigitsOf(run);
      && (r.Ok? <==> forall i :: 0 <= i < |run| ==> run[i] < 0x100)
      && (r.Err? ==> r.error == ValueError)
      && (r.Ok? ==> forall i :: 0 <= i < |r.value| ==> IsAsciiDigit(r.value[i]))
  {
    if run != [] {
      DigitsOfSpec(run[1..]);
      assert forall i :: 1 <= i < |run| ==> run[i] == run[1..][i - 1];
      if DigitsOf(run).Ok? && run[0] in DIGITS {
        var rest := DigitsOf(run[1..]).value;
        var v := [run[0] as int] + rest;
        assert forall i :: 1 <= i < |v| ==> v[i] == rest[i - 1];
      }
    }
  }

  /** The reading ending at the 'W' at idx: the digits of columns 0..x of its row. */
  function Collect(f: Frame, idx: nat): Result<Extracted>
    requires idx < MAX_T
  {
    var x, y := idx / MAX_Y, idx % MAX_Y;
    match DigitsOf(Row(f, y)[..x + 1])
    case Err(e) => Err(e)
    case Ok(ds) =>
      match DecodeAscii(ds)
      case Err(e) => Err(e)
      case Ok(s) => Ok(Found(s, Some(CHAR_W)))
  }

  /** The scan of extract_power from position idx on. */
  function Scan(f: Frame, idx: nat): Result<Extracted>
    requires idx <= MAX_T
    decreases MAX_T - idx
  {
    if idx == MAX_T then Ok(NotFound)
    else match Candidate(f.ar, idx)
      case Err(e) => Err(e)
      case Ok(accepted) => if accepted then Collect(f, idx) else Scan(f, idx + 1)
  }

  /** What extract_power returns (or raises) for frame `f`. */
  function PowerSpec(f: Frame): Result<Extracted> {
    Scan(f, 0)
  }

  /** The inner loop of extract_power: walk the row from the 'W' back to column 0,
      inserting every digit at the front. */
  method CollectDigits(f: Frame, idx: nat) returns (r: Result<Extracted>)
    requires idx < MAX_T
    ensures r == Collect(f, idx)
  {
    var x, y := idx / MAX_Y, idx % MAX_Y;
    var line := Line(f, y).value;
    var s: seq<int> := [];
    var i: int := x;
    while i >= 0
      invariant -1 <= i <= x
      invariant DigitsOf(line[i + 1..x + 1]) == Ok(s)
    {
      var isDigit := InBytes(line[i], DIGITS);
      if isDigit.Err? {
        DigitsOfSpec(line[..x + 1]);
        assert line[i] == line[..x + 1][i];
        return Err(isDigit.error);
      }
      assert line[i..x + 1][1..] == line[i + 1..x + 1];
      if isDigit.value {
        s := [line[i]] + s;
      }
      i := i - 1;
    }
    assert line[..x + 1] == line[0..x + 1];
    DigitsOfSpec(line[..x + 1]);
    // Only digits were collected, so decode('ascii') cannot fail.
    var val := DecodeAscii(s);
    assert val.Ok?;
    r := Ok(Found(val.value, Some(CHAR_W)));
  }

  /** FrameBetaflight.extract_power. */
  method ExtractPower(f: Frame) returns (r: Result<Extracted>)
    ensures r == PowerSpec(f)
  {
    var idx := 0;
    while idx < |f.ar|
      invariant 0 <= idx <= MAX_T
      invariant Scan(f, idx) == PowerSpec(f)
    {
      var v := f.ar[idx];
      if v == CHAR_W {
        var back := idx - MAX_Y;
        if back < 0 {
          back := back + |f.ar|;
        }
        var digitLeft := InBytes(f.ar[back], DIGITS);
        if digitLeft.Err? {
          return Err(digitLeft.error);
        }
        if digitLeft.value {
          if idx + MAX_Y >= |f.ar| {
            return Err(IndexError);
          }
          var blankRight := InBytes(f.ar[idx + MAX_Y], BLANKS);
          if blankRight.Err? {
            return Err(blankRight.error);
          }
          if blankRight.value {
            r := CollectDigits(f, idx);
            return;
          }
        }
      }
      idx := idx + 1;
    }
    r := Ok(NotFound);
  }

  /** Positions that do not end a reading are passed over. */
  lemma {:induction false} ScanSkips(f: Frame, from: nat, to: nat)
    requires from <= to <= MAX_T
    requires forall j :: from <= j < to ==> Candidate(f.ar, j) == Ok(false)
    ensures Scan(f, from) == Scan(f, to)
    decreases MAX_T - from
  {
    if from < to {
      ScanSkips(f, from + 1, to);
    }
  }

  /** (None, None) exactly when no position ends a power reading. */
  lemma PowerNotFoundIff(f: Frame)
    ensures PowerSpec(f) == Ok(NotFound) <==> forall j :: 0 <= j < MAX_T ==> Candidate(f.ar, j) == Ok(false)
  {
    NotFoundFrom(f, 0);
  }

  lemma {:induction false} NotFoundFrom(f: Frame, from: nat)
    requires from <= MAX_T
    requires forall j :: 0 <= j < from ==> Candidate(f.ar, j) == Ok(false)
    ensures PowerSpec(f) == Ok(NotFound) <==> forall j :: from <= j < MAX_T ==> Candidate(f.ar, j) == Ok(false)
    decreases MAX_T - from
  {
    if from == MAX_T {
      ScanSkips(f, 0, MAX_T);
    } else if Candidate(f.ar, from) == Ok(false) {
      NotFoundFrom(f, from + 1);
    } else {
      PowerFirst(f, from);
    }
  }

  /** The first position whose test does not simply fail decides the result: its
      error, or the reading it ends. */
  lemma PowerFirst(f: Frame, i: nat)
    requires i < MAX_T && Candidate(f.ar, i) != Ok(false)
    requires forall j :: 0 <= j < i ==> Candidate(f.ar, j) == Ok(false)
    ensures PowerSpec(f) == if Candidate(f.ar, i).Err? then Err(Candidate(f.ar, i).error) else Collect(f, i)
    ensures PowerSpec(f) != Ok(NotFound)
  {
    ScanSkips(f, 0, i);
    CollectFound(f, i);
  }

  /** A reading is the digits of columns 0..x of the row of its 'W', in order, and
      its terminator is the 'W'; it fails only on a glyph there that is not a byte. */
  lemma CollectFound(f: Frame, idx: nat)
    requires idx < MAX_T
    ensures var x, y := idx / MAX_Y, idx % MAX_Y;
      var ds := DigitsOf(Row(f, y)[..x + 1]);
      && (Collect(f, idx).Err? <==> ds.Err?)
      && (Collect(f, idx).Err? ==> Collect(f, idx).error == ValueError)
      && (ds.Ok? ==> DecodeAscii(ds.value).Ok? && Collect(f, idx) == Ok(Found(DecodeAscii(ds.value).value, Some(CHAR_W))))
  {
    DigitsOfSpec(Row(f, idx % MAX_Y)[..idx / MAX_Y + 1]);
  }

  /** What one glyph contributes to the reading. */
  function Head(g: Glyph): seq<int> {
    if g in DIGITS then [g as int] else []
  }

  lemma DigitsOfCons(run: seq<Glyph>)
    requires run != []
    ensures DigitsOf(run).Ok? <==> run[0] < 0x100 && DigitsOf(run[1..]).Ok?
    ensures DigitsOf(run).Ok? ==> DigitsOf(run).value == Head(run[0]) + DigitsOf(run[1..]).value
  {
    if DigitsOf(run).Ok? && run[0] !in DIGITS {
      assert [] + DigitsOf(run[1..]).value == DigitsOf(run[1..]).value;
    }
  }

  /** DigitsOf keeps exactly the digits, in order: over a concatenation it
      concatenates. */
  lemma {:induction false} DigitsOfConcat(a: seq<Glyph>, b: seq<Glyph>)
    requires DigitsOf(a).Ok? && DigitsOf(b).Ok?
    ensures DigitsOf(a + b) == Ok(DigitsOf(a).value + DigitsOf(b).value)
    decreases |a|
  {
    if a == [] {
      assert a + b == b && DigitsOf(a) == Ok([]);
      assert [] + DigitsOf(b).value == DigitsOf(b).value;
    } else {
      var ab := a + b;
      assert ab[0] == a[0] && ab[1..] == a[1..] + b;
      DigitsOfCons(a);
      DigitsOfConcat(a[1..], b);
      DigitsOfCons(ab);
      var h, ta, tb := Head(a[0]), DigitsOf(a[1..]).value, DigitsOf(b).value;
      assert h + (ta + tb) == (h + ta) + tb;
    }
  }

  lemma DigitsOfOne(g: Glyph)
    requires g < 0x100
    ensures DigitsOf([g]) == Ok(if IsAsciiDigit(g) then [g as int] else [])
  {
    DigitsAreAsciiDigits(g);
    var run := [g];
    assert run[1..] == [] && DigitsOf(run[1..]) == Ok([]);
    assert [g as int] + [] == [g as int];
  }
}
