/** The extract_* wrappers of FrameBetaflight and FrameInav: which tag and which
    direction each font uses for each quantity, and the five readings a frame
    yields for the track. */
module Quantities {
  import opened Osd
  import opened OsdFrame
  import opened Extraction
  import opened SplitDigits
  import opened Power

  /** A forward reading of `tag`: (None, None) exactly when the tag is absent. */
  function Forward(f: Frame, tag: Glyph): (r: Result<Extracted>)
    ensures r == Ok(NotFound) <==> tag !in f.ar
    ensures tag in f.ar && r.Ok? ==> r.value.Found?
  {
    NotFoundIffTagAbsent(f, tag, false, DEFAULT_ALLOWED);
    ExtractSpec(f, tag, false, DEFAULT_ALLOWED)
  }

  /** A reverse reading of `tag`: (None, None) exactly when the tag is absent, and
      otherwise the terminator is the tag. */
  function Backward(f: Frame, tag: Glyph): (r: Result<Extracted>)
    ensures r == Ok(NotFound) <==> tag !in f.ar
    ensures tag in f.ar && r.Ok? ==> r.value.Found? && r.value.next == Some(tag)
  {
    NotFoundIffTagAbsent(f, tag, true, DEFAULT_ALLOWED);
    ReverseTerminatorIsTag(f, tag, DEFAULT_ALLOWED);
    ExtractSpec(f, tag, true, DEFAULT_ALLOWED)
  }

  /** extract_lat: read forward in both fonts, from 0x89 (Betaflight) or 0x03 (iNav). */
  function LatOf(f: Frame): (r: Result<Extracted>)
    ensures var tag := if f.variant == Betaflight then BF_LAT else INAV_LAT;
      r == Forward(f, tag) && (r == Ok(NotFound) <==> tag !in f.ar)
  {
    Forward(f, if f.variant == Betaflight then BF_LAT else INAV_LAT)
  }

  /** extract_lon: read forward in both fonts, from 0x98 (Betaflight) or 0x04 (iNav). */
  function LonOf(f: Frame): (r: Result<Extracted>)
    ensures var tag := if f.variant == Betaflight then BF_LON else INAV_LON;
      r == Forward(f, tag) && (r == Ok(NotFound) <==> tag !in f.ar)
  {
    Forward(f, if f.variant == Betaflight then BF_LON else INAV_LON)
  }

  /** extract_alt: forward from 0x7F in Betaflight, in reverse from 0x76 in iNav
      (the unit glyph follows the number). */
  function AltOf(f: Frame): (r: Result<Extracted>)
    ensures f.variant == Betaflight ==> r == Forward(f, BF_ALT)
    ensures f.variant == Inav ==> r == Backward(f, INAV_ALT)
    ensures var tag := if f.variant == Betaflight then BF_ALT else INAV_ALT;
      r == Ok(NotFound) <==> tag !in f.ar
    ensures f.variant == Inav && r.Ok? && r.value.Found? ==> r.value.next == Some(INAV_ALT)
  {
    if f.variant == Betaflight then Forward(f, BF_ALT) else Backward(f, INAV_ALT)
  }

  /** The km/h, mph and knot speed tags of iNav, in the order they are tried. */
  const INAV_SPEED_TAGS: seq<Glyph> := [INAV_SPEED_KMPH, INAV_SPEED_MPH, INAV_SPEED_KT]

  /** `if v:` on the string part of a reading: None and '' are both false. */
  predicate NonEmpty(e: Extracted) {
    e.Found? && e.value != []
  }

  /** The loop of FrameInav.extract_speed over the readings of its tags, in order:
      the first reading that is a non-empty string wins, and the first error ends the
      search. Reading a tag has no effect, so choosing among all of them chooses
      what the loop returns. */
  function FirstNonEmpty(rs: seq<Result<Extracted>>): (r: Result<Extracted>)
    ensures r.Ok? ==> r.value.NotFound? || NonEmpty(r.value)
    ensures r != Ok(NotFound) ==> r in rs
  {
    if rs == [] then Ok(NotFound)
    else if rs[0].Err? || NonEmpty(rs[0].value) then rs[0]
    else FirstNonEmpty(rs[1..])
  }

  /** The readings of the three speed tags, in reverse mode. */
  function SpeedReadings(f: Frame): seq<Result<Extracted>> {
    seq(|INAV_SPEED_TAGS|, i requires 0 <= i < |INAV_SPEED_TAGS| => Backward(f, INAV_SPEED_TAGS[i]))
  }

  /** extract_speed: forward from 0x70 in Betaflight; the speed search in iNav. */
  function SpeedOf(f: Frame): (r: Result<Extracted>)
    ensures f.variant == Betaflight ==> r == Forward(f, BF_SPEED)
    ensures f.variant == Inav ==> r == FirstNonEmpty(SpeedReadings(f))
    ensures f.variant == Inav && r.Ok? && r.value.Found? ==> r.value.value != [] && r.value.next.value in INAV_SPEED_TAGS
  {
    if f.variant == Betaflight then Forward(f, BF_SPEED)
    else
      var rs := SpeedReadings(f);
      var r := FirstNonEmpty(rs);
      assert r.Ok? && r.value.Found? ==> exists i :: 0 <= i < 3 && r == rs[i];
      r
  }

  /** extract_power: the 'W' heuristic in Betaflight, a reverse reading from 0x71 in
      iNav; either way the terminator of a reading is the unit glyph. */
  function PowerOf(f: Frame): (r: Result<Extracted>)
    ensures f.variant == Betaflight ==> r == PowerSpec(f)
    ensures f.variant == Inav ==> r == Backward(f, INAV_WATT)
    ensures r.Ok? && r.value.Found? ==> r.value.next == Some(if f.variant == Betaflight then CHAR_W else INAV_WATT)
  {
    PowerFoundIsW(f, 0);
    if f.variant == Betaflight then PowerSpec(f) else Backward(f, INAV_WATT)
  }

  /** Every reading of the 'W' heuristic ends with the 'W'. */
  lemma {:induction false} PowerFoundIsW(f: Frame, idx: nat)
    requires idx <= MAX_T
    ensures Scan(f, idx).Ok? && Scan(f, idx).value.Found? ==> Scan(f, idx).value.next == Some(CHAR_W)
    decreases MAX_T - idx
  {
    if idx < MAX_T {
      if Candidate(f.ar, idx) == Ok(true) {
        CollectFound(f, idx);
      } else if Candidate(f.ar, idx) == Ok(false) {
        PowerFoundIsW(f, idx + 1);
      }
    }
  }

  /** The speed search returns the first reading that is a non-empty string or an
      error. */
  lemma {:induction false} FirstNonEmptyWins(rs: seq<Result<Extracted>>, i: nat)
    requires i < |rs|
    requires rs[i].Err? || NonEmpty(rs[i].value)
    requires forall j :: 0 <= j < i ==> rs[j].Ok? && !NonEmpty(rs[j].value)
    ensures FirstNonEmpty(rs) == rs[i]
    decreases i
  {
    if i > 0 {
      assert rs[1..][i - 1] == rs[i];
      assert forall j :: 0 <= j < i - 1 ==> rs[1..][j] == rs[j + 1];
      FirstNonEmptyWins(rs[1..], i - 1);
    }
  }

  /** The speed search gives (None, None) exactly when every reading is (None, None)
      or an empty string, and none raises. */
  lemma {:induction false} FirstNonEmptyNone(rs: seq<Result<Extracted>>)
    ensures FirstNonEmpty(rs) == Ok(NotFound) <==> forall j :: 0 <= j < |rs| ==> rs[j].Ok? && !NonEmpty(rs[j].value)
    decreases |rs|
  {
    if rs != [] {
      FirstNonEmptyNone(rs[1..]);
      assert forall j :: 1 <= j < |rs| ==> rs[1..][j - 1] == rs[j];
    }
  }

  /** The five readings of one frame, in the order Track asks for them, with the
      terminators dropped; the first exception raised ends the frame. */
  datatype Sample = Sample(frameIdx: u32, lat: Option<string>, lon: Option<string>, alt: Option<string>,
                           spd: Option<string>, pwr: Option<string>)

  function ValueOf(e: Extracted): (v: Option<string>)
    ensures v.None? <==> e.NotFound?
    ensures v.Some? ==> v.value == e.value
  {
    if e.NotFound? then None else Some(e.value)
  }

  /** What Track reads from one frame: extract_lat, _lon, _alt, _speed and _power
      in that order, each reduced to its string. */
  function SampleOf(f: Frame): (r: Result<Sample>)
    ensures r.Ok? <==> LatOf(f).Ok? && LonOf(f).Ok? && AltOf(f).Ok? && SpeedOf(f).Ok? && PowerOf(f).Ok?
    ensures LatOf(f).Err? ==> r == Err(LatOf(f).error)
    ensures LatOf(f).Ok? && LonOf(f).Err? ==> r == Err(LonOf(f).error)
    ensures LatOf(f).Ok? && LonOf(f).Ok? && AltOf(f).Err? ==> r == Err(AltOf(f).error)
    ensures LatOf(f).Ok? && LonOf(f).Ok? && AltOf(f).Ok? && SpeedOf(f).Err? ==> r == Err(SpeedOf(f).error)
    ensures LatOf(f).Ok? && LonOf(f).Ok? && AltOf(f).Ok? && SpeedOf(f).Ok? && PowerOf(f).Err? ==> r == Err(PowerOf(f).error)
    ensures r.Ok? ==> r.value == Sample(f.frameIdx, ValueOf(LatOf(f).value), ValueOf(LonOf(f).value),
      ValueOf(AltOf(f).value), ValueOf(SpeedOf(f).value), ValueOf(PowerOf(f).value))
  {
    match LatOf(f)
    case Err(e) => Err(e)
    case Ok(lat) =>
      match LonOf(f)
      case Err(e) => Err(e)
      case Ok(lon) =>
        match AltOf(f)
        case Err(e) => Err(e)
        case Ok(alt) =>
          match SpeedOf(f)
          case Err(e) => Err(e)
          case Ok(spd) =>
            match PowerOf(f)
            case Err(e) => Err(e)
            case Ok(pwr) => Ok(Sample(f.frameIdx, ValueOf(lat), ValueOf(lon), ValueOf(alt), ValueOf(spd), ValueOf(pwr)))
  }
}
