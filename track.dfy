/** Track: the five readings of every frame of a recording, turned into track
    points by the missing-value policy, with the frame index converted into a
    video timestamp. */
module TrackBuilder {
  import opened Osd
  import opened OsdFrame
  import opened Quantities
  import opened FrameStream

  /** The onerror argument: 'skip', 'empty', 'prev', or any other string, under
      which missing readings are kept as None. */
  datatype Policy = Skip | Empty | Prev | Keep

  function PolicyOf(onerror: string): Policy {
    if onerror == "skip" then Skip
    else if onerror == "empty" then Empty
    else if onerror == "prev" then Prev
    else Keep
  }

  /** The number of readings of a frame: latitude, longitude, altitude, speed, power. */
  const SLOTS: int := 5

  /** One track point: the readings in slot order, and the time in milliseconds
      (written between speed and power in a row of the track). */
  datatype Point = Point(values: seq<Option<string>>, timeMs: int)

  /** The loop state of Track.__init__: the points appended so far and `prev`,
      the values the 'prev' policy falls back on (its time slot is never read and
      is not kept). */
  datatype State = State(points: seq<Point>, prev: seq<string>)

  const BLANKS: seq<string> := ["", "", "", "", ""]
  const INITIAL: State := State([], BLANKS)

  function Readings(s: Sample): (vs: seq<Option<string>>)
    ensures |vs| == SLOTS
  {
    [s.lat, s.lon, s.alt, s.spd, s.pwr]
  }

  /** Python truth of a reading: None and '' are false. */
  predicate Truthy(v: Option<string>) {
    v.Some? && v.value != []
  }

  /** `v or d` on a reading. */
  function Or(v: Option<string>, d: string): string {
    if Truthy(v) then v.value else d
  }

  predicate AllNone(vs: seq<Option<string>>) {
    forall k :: 0 <= k < |vs| ==> vs[k].None?
  }

  predicate AnyNone(vs: seq<Option<string>>) {
    exists k :: 0 <= k < |vs| && vs[k].None?
  }

  /** Every slot's reading, or the fallback for that slot when it is falsy. */
  function FillFrom(vs: seq<Option<string>>, d: seq<string>): (r: seq<string>)
    requires |vs| == |d|
    ensures |r| == |vs|
    ensures forall k :: 0 <= k < |vs| ==> r[k] == Or(vs[k], d[k])
  {
    seq(|vs|, k requires 0 <= k < |vs| => Or(vs[k], d[k]))
  }

  function Present(ss: seq<string>): (r: seq<Option<string>>)
    ensures |r| == |ss| && !AnyNone(r)
    ensures forall k :: 0 <= k < |ss| ==> r[k] == Some(ss[k])
  {
    seq(|ss|, k requires 0 <= k < |ss| => Some(ss[k]))
  }

  /** int(frame_idx * 1000 / fps), for a positive integer frame rate: the number of
      whole milliseconds from the start of the video to the frame. */
  function TimestampMs(frameIdx: int, fps: int): (ts: int)
    requires frameIdx >= 0 && fps > 0
    ensures ts >= 0
    ensures ts * fps <= frameIdx * 1000 < (ts + 1) * fps
  {
    var q := frameIdx * 1000 / fps;
    assert q * fps + frameIdx * 1000 % fps == frameIdx * 1000;
    q
  }

  /** A later frame is never stamped earlier. */
  lemma TimestampMonotone(a: int, b: int, fps: int)
    requires 0 <= a <= b && fps > 0
    ensures TimestampMs(a, fps) <= TimestampMs(b, fps)
  {
    var ta, tb := TimestampMs(a, fps), TimestampMs(b, fps);
    if ta > tb {
      assert (tb + 1) * fps <= ta * fps by {
        MultiplyMonotone(tb + 1, ta, fps);
      }
      assert false;
    }
  }

  lemma MultiplyMonotone(x: int, y: int, m: int)
    requires x <= y && m > 0
    ensures x * m <= y * m
  {
  }

  /** Whether a frame with these readings gives a point under `policy`. */
  predicate Emits(vs: seq<Option<string>>, policy: Policy) {
    !AllNone(vs) && (policy == Skip ==> !AnyNone(vs))
  }

  /** One pass of the loop body of Track.__init__ over a frame's readings. */
  function Step(st: State, s: Sample, policy: Policy, fps: int): (r: State)
    requires fps > 0 && |st.prev| == SLOTS
    ensures |r.prev| == SLOTS
    ensures !Emits(Readings(s), policy) ==> r == st
    ensures Emits(Readings(s), policy) ==>
      && |r.points| == |st.points| + 1 && r.points[..|st.points|] == st.points
      && r.points[|st.points|].timeMs == TimestampMs(s.frameIdx, fps)
    ensures policy != Prev ==> r.prev == st.prev
  {
    var vs := Readings(s);
    if AllNone(vs) then st
    else
      var ts := TimestampMs(s.frameIdx, fps);
      match policy
      case Skip => if AnyNone(vs) then st else st.(points := st.points + [Point(vs, ts)])
      case Empty => st.(points := st.points + [Point(Present(FillFrom(vs, BLANKS)), ts)])
      case Prev =>
        var filled := FillFrom(vs, st.prev);
        State(st.points + [Point(Present(filled), ts)], filled)
      case Keep => st.(points := st.points + [Point(vs, ts)])
  }

  /** The loop of Track.__init__ over the readings of a sequence of frames. */
  function Build(st: State, samples: seq<Sample>, policy: Policy, fps: int): (r: State)
    requires fps > 0 && |st.prev| == SLOTS
    ensures |r.prev| == SLOTS
    decreases |samples|
  {
    if samples == [] then st else Build(Step(st, samples[0], policy, fps), samples[1..], policy, fps)
  }

  lemma {:induction false} BuildSnoc(st: State, samples: seq<Sample>, s: Sample, policy: Policy, fps: int)
    requires fps > 0 && |st.prev| == SLOTS
    ensures Build(st, samples + [s], policy, fps) == Step(Build(st, samples, policy, fps), s, policy, fps)
    decreases |samples|
  {
    if samples == [] {
      assert [s][1..] == [];
    } else {
      assert (samples + [s])[1..] == samples[1..] + [s];
      BuildSnoc(Step(st, samples[0], policy, fps), samples[1..], s, policy, fps);
    }
  }

  /** The frames that give a point, in frame order. */
  function Kept(samples: seq<Sample>, policy: Policy): (r: seq<Sample>)
    ensures |r| <= |samples|
    ensures forall j :: 0 <= j < |r| ==> Emits(Readings(r[j]), policy) && r[j] in samples
  {
    if samples == [] then []
    else
      var init, last := samples[..|samples| - 1], samples[|samples| - 1];
      Kept(init, policy) + if Emits(Readings(last), policy) then [last] else []
  }

  /** The last truthy reading in slot k, or d if there is none: what 'prev' falls
      back on after these frames. */
  function LastValue(samples: seq<Sample>, k: int, d: string): string
    requires 0 <= k < SLOTS
  {
    if samples == [] then d
    else
      var last := Readings(samples[|samples| - 1])[k];
      if Truthy(last) then last.value else LastValue(samples[..|samples| - 1], k, d)
  }

  /** The values of the point the j-th kept frame gives, as each policy describes
      them: the readings themselves under 'skip' and under an unknown policy, falsy
      readings blanked under 'empty', and under 'prev' the latest truthy reading of
      each slot among the kept frames up to this one. */
  function Expected(kept: seq<Sample>, j: int, policy: Policy): (vs: seq<Option<string>>)
    requires 0 <= j < |kept|
    ensures |vs| == SLOTS
  {
    match policy
    case Skip => Readings(kept[j])
    case Keep => Readings(kept[j])
    case Empty => Present(FillFrom(Readings(kept[j]), BLANKS))
    case Prev => Present(seq(SLOTS, k requires 0 <= k < SLOTS => LastValue(kept[..j + 1], k, "")))
  }

  /** The track built from a start with no points: one point per kept frame, in
      frame order, stamped with that frame's time and holding the values the policy
      describes; 'prev' ends up holding the latest truthy reading of each slot. */
  predicate Describes(r: State, samples: seq<Sample>, policy: Policy, fps: int)
    requires fps > 0
  {
    DescribesKept(r, Kept(samples, policy), policy, fps)
  }

  /** The loop state after the last frame matches the description of the track. */
  lemma {:induction false} BuildDescribed(samples: seq<Sample>, policy: Policy, fps: int)
    requires fps > 0
    ensures Describes(Build(INITIAL, samples, policy, fps), samples, policy, fps)
    decreases |samples|
  {
    if samples != [] {
      var init, s := samples[..|samples| - 1], samples[|samples| - 1];
      assert samples == init + [s];
      BuildDescribed(init, policy, fps);
      BuildSnoc(INITIAL, init, s, policy, fps);
      StepDescribed(Build(INITIAL, init, policy, fps), init, s, policy, fps);
    }
  }

  /** One step keeps the description true, one frame later. */
  lemma StepDescribed(st: State, init: seq<Sample>, s: Sample, policy: Policy, fps: int)
    requires fps > 0 && Describes(st, init, policy, fps)
    ensures Describes(Step(st, s, policy, fps), init + [s], policy, fps)
  {
    var samples := init + [s];
    assert samples[..|samples| - 1] == init;
    if Emits(Readings(s), policy) {
      assert Kept(samples, policy) == Kept(init, policy) + [s];
      StepAppends(st, Kept(init, policy), s, policy, fps);
    } else {
      assert Kept(samples, policy) == Kept(init, policy);
    }
  }

  /** The description, in terms of the kept frames alone. */
  predicate DescribesKept(r: State, kept: seq<Sample>, policy: Policy, fps: int)
    requires fps > 0
  {
    && |r.points| == |kept|
    && |r.prev| == SLOTS
    && (forall j :: 0 <= j < |kept| ==>
          r.points[j] == Point(Expected(kept, j, policy), TimestampMs(kept[j].frameIdx, fps)))
    && (forall k :: 0 <= k < SLOTS ==> r.prev[k] == if policy == Prev then LastValue(kept, k, "") else "")
  }

  lemma StepAppends(st: State, kept: seq<Sample>, s: Sample, policy: Policy, fps: int)
    requires fps > 0 && DescribesKept(st, kept, policy, fps) && Emits(Readings(s), policy)
    ensures DescribesKept(Step(st, s, policy, fps), kept + [s], policy, fps)
  {
    var kept' := kept + [s];
    var r := Step(st, s, policy, fps);
    NewPoint(st, kept, s, policy, fps);
    forall j | 0 <= j < |kept'|
      ensures r.points[j] == Point(Expected(kept', j, policy), TimestampMs(kept'[j].frameIdx, fps))
    {
      if j < |kept| {
        ExpectedPrefix(kept, s, j, policy);
        assert r.points[j] == r.points[..|kept|][j];
      }
    }
  }

  /** Appending a frame leaves the values described for the earlier ones as they were. */
  lemma ExpectedPrefix(kept: seq<Sample>, s: Sample, j: int, policy: Policy)
    requires 0 <= j < |kept|
    ensures Expected(kept + [s], j, policy) == Expected(kept, j, policy)
  {
    assert (kept + [s])[..j + 1] == kept[..j + 1];
  }

  /** The point a step appends, and the fallback values it leaves. */
  lemma NewPoint(st: State, kept: seq<Sample>, s: Sample, policy: Policy, fps: int)
    requires fps > 0 && DescribesKept(st, kept, policy, fps) && Emits(Readings(s), policy)
    ensures var r, kept' := Step(st, s, policy, fps), kept + [s];
      && r.points[|kept|] == Point(Expected(kept', |kept|, policy), TimestampMs(s.frameIdx, fps))
      && forall k :: 0 <= k < SLOTS ==> r.prev[k] == if policy == Prev then LastValue(kept', k, "") else ""
  {
    var kept' := kept + [s];
    assert kept'[..|kept| + 1] == kept';
    assert kept'[..|kept'| - 1] == kept;
  }

  // Consequences of the description, one per policy.

  /** Under every policy, a frame gives a point only if some reading is present,
      and points keep frame order: each point is stamped with the time of a frame
      that gives one, in the order of the frames. */
  lemma PointsInOrder(samples: seq<Sample>, policy: Policy, fps: int)
    requires fps > 0
    ensures var r, kept := Build(INITIAL, samples, policy, fps).points, Kept(samples, policy);
      && |r| == |kept| <= |samples|
      && forall j :: 0 <= j < |r| ==> !AllNone(Readings(kept[j])) && r[j].timeMs == TimestampMs(kept[j].frameIdx, fps)
  {
    BuildDescribed(samples, policy, fps);
  }

  /** 'skip': the frames kept are exactly those with every reading present ('' counts
      as present), and each point holds that frame's readings. */
  lemma SkipKeepsComplete(samples: seq<Sample>, fps: int)
    requires fps > 0
    ensures var r, kept := Build(INITIAL, samples, Skip, fps).points, Kept(samples, Skip);
      && (forall j :: 0 <= j < |kept| ==> !AnyNone(Readings(kept[j])))
      && (forall s :: s in samples && !AnyNone(Readings(s)) ==> s in kept)
      && |r| == |kept|
      && forall j :: 0 <= j < |r| ==> r[j].values == Readings(kept[j])
  {
    BuildDescribed(samples, Skip, fps);
    KeptComplete(samples, Skip);
    forall s | s in samples && !AnyNone(Readings(s)) ensures Emits(Readings(s), Skip) {
      assert Readings(s)[0].Some?;
    }
  }

  /** Every frame that gives a point under the policy is among those kept. */
  lemma {:induction false} KeptComplete(samples: seq<Sample>, policy: Policy)
    ensures forall s :: s in samples && Emits(Readings(s), policy) ==> s in Kept(samples, policy)
    decreases |samples|
  {
    if samples != [] {
      var init, last := samples[..|samples| - 1], samples[|samples| - 1];
      KeptComplete(init, policy);
      assert samples == init + [last];
    }
  }

  /** Some reading is present in a frame exactly when the frame gives a point under
      'empty', 'prev' and an unknown policy. */
  lemma PresentFramesKept(samples: seq<Sample>, policy: Policy)
    requires policy != Skip
    ensures forall s :: s in samples && !AllNone(Readings(s)) ==> s in Kept(samples, policy)
  {
    KeptComplete(samples, policy);
  }

  /** 'empty': no point holds None; a present reading is kept and a falsy one is ''. */
  lemma EmptyBlanks(samples: seq<Sample>, fps: int)
    requires fps > 0
    ensures var r, kept := Build(INITIAL, samples, Empty, fps).points, Kept(samples, Empty);
      && |r| == |kept|
      && (forall j :: 0 <= j < |r| ==> |r[j].values| == SLOTS)
      && forall j, k :: 0 <= j < |r| && 0 <= k < SLOTS ==>
           r[j].values[k] == Some(if Truthy(Readings(kept[j])[k]) then Readings(kept[j])[k].value else "")
  {
    BuildDescribed(samples, Empty, fps);
  }

  /** 'prev': no point holds None, and each slot of a point holds the latest truthy
      reading of that slot among the frames up to its own, or '' if there is none. */
  lemma PrevCarries(samples: seq<Sample>, fps: int)
    requires fps > 0
    ensures var r, kept := Build(INITIAL, samples, Prev, fps).points, Kept(samples, Prev);
      && |r| == |kept|
      && (forall j :: 0 <= j < |r| ==> |r[j].values| == SLOTS)
      && forall j, k :: 0 <= j < |r| && 0 <= k < SLOTS ==> r[j].values[k] == Some(LastValue(kept[..j + 1], k, ""))
  {
    BuildDescribed(samples, Prev, fps);
  }

  /** 'prev': a truthy reading of a kept frame is its own value in the point. */
  lemma PrevKeepsTruthy(kept: seq<Sample>, j: int, k: int)
    requires 0 <= j < |kept| && 0 <= k < SLOTS && Truthy(Readings(kept[j])[k])
    ensures LastValue(kept[..j + 1], k, "") == Readings(kept[j])[k].value
  {
    assert kept[..j + 1][j] == kept[j];
  }

  /** The frames 'prev' drops are exactly those with no reading at all; they leave
      the fallback values as they were. */
  lemma PrevIgnoresEmptyFrames(samples: seq<Sample>, s: Sample, k: int)
    requires 0 <= k < SLOTS && AllNone(Readings(s))
    ensures Kept(samples + [s], Prev) == Kept(samples, Prev)
    ensures LastValue(samples + [s], k, "") == LastValue(samples, k, "")
  {
    var all := samples + [s];
    assert all[..|all| - 1] == samples;
    assert Readings(s)[k].None?;
  }

  // Reading a recording.

  /** What Track.__init__ does from frame `index` of an open recording on: read the
      frame, stop at the end, take its readings with `read`, apply the policy; the
      first exception ends the track. Track takes the readings with SampleOf; the
      loop does not depend on how they are taken, so it is stated for any `read`. */
  function TrackFrom(data: seq<byte>, h: Header, index: nat, st: State, policy: Policy, fps: int,
                     read: Frame -> Result<Sample>): Result<seq<Point>>
    requires fps > 0 && |st.prev| == SLOTS
    decreases |data| + FRAME_BLOCK_SIZE - FrameOffset(index)
  {
    match FrameAt(data, h, index)
    case Err(e) => Err(e)
    case Ok(None) => Ok(st.points)
    case Ok(Some(f)) =>
      FrameFits(data, h, index);
      match TakeFrame(st, f, policy, fps, read)
      case Err(e) => Err(e)
      case Ok(st') => TrackFrom(data, h, index + 1, st', policy, fps, read)
  }

  /** One frame of the track: the result after frame `index` is the result from the
      next frame on, or the exception its readings raise. */
  lemma TrackFromNext(data: seq<byte>, h: Header, index: nat, st: State, f: Frame, policy: Policy, fps: int,
                      read: Frame -> Result<Sample>)
    requires fps > 0 && |st.prev| == SLOTS
    requires FrameAt(data, h, index) == Ok(Some(f))
    ensures var next := TakeFrame(st, f, policy, fps, read);
      TrackFrom(data, h, index, st, policy, fps, read) ==
        if next.Err? then Err(next.error) else TrackFrom(data, h, index + 1, next.value, policy, fps, read)
  {
  }

  /** The loop body on one frame: its five readings, then the policy. */
  function TakeFrame(st: State, f: Frame, policy: Policy, fps: int, read: Frame -> Result<Sample>): (r: Result<State>)
    requires fps > 0 && |st.prev| == SLOTS
    ensures r.Ok? ==> |r.value.prev| == SLOTS
  {
    match read(f)
    case Err(e) => Err(e)
    case Ok(s) => Ok(Step(st, s, policy, fps))
  }

  /** Track(osdpath, onerror, fps) on the contents of the file. */
  function TrackOf(data: seq<byte>, onerror: string, fps: int): (r: Result<seq<Point>>)
    requires fps > 0
    ensures ParseHeader(data).Err? ==> r == Err(ParseHeader(data).error)
  {
    match ParseHeader(data)
    case Err(e) => Err(e)
    case Ok(h) => TrackFrom(data, h, 0, INITIAL, PolicyOf(onerror), fps, SampleOf)
  }

  function SamplesOf(frames: seq<Frame>): (r: seq<Sample>)
    requires forall i :: 0 <= i < |frames| ==> SampleOf(frames[i]).Ok?
    ensures |r| == |frames|
    ensures forall i :: 0 <= i < |frames| ==> r[i] == SampleOf(frames[i]).value
  {
    seq(|frames|, i requires 0 <= i < |frames| => SampleOf(frames[i]).value)
  }

  /** The track of a recording whose frames all read without an exception is the
      fold of the policy over the readings of its frames, in file order. */
  lemma TrackOfRecording(h: Header, frames: seq<Frame>, onerror: string, fps: int)
    requires fps > 0
    requires h.magic == OSD_MAGIC && h.version == OSD_VERSION && VariantOf(h.fontVariant).Some?
    requires forall i :: 0 <= i < |frames| ==> frames[i].variant == VariantOf(h.fontVariant).value
    requires forall i :: 0 <= i < |frames| ==> SampleOf(frames[i]).Ok?
    ensures TrackOf(RecordFile(h, frames), onerror, fps) == Ok(Build(INITIAL, SamplesOf(frames), PolicyOf(onerror), fps).points)
  {
    ParseRecording(h, frames);
    TrackFromRecording(h, frames, 0, INITIAL, PolicyOf(onerror), fps);
    assert SamplesOf(frames)[0..] == SamplesOf(frames);
  }

  lemma {:induction false} TrackFromRecording(h: Header, frames: seq<Frame>, index: nat, st: State, policy: Policy, fps: int)
    requires fps > 0 && |st.prev| == SLOTS && index <= |frames|
    requires VariantOf(h.fontVariant).Some?
    requires forall i :: 0 <= i < |frames| ==> frames[i].variant == VariantOf(h.fontVariant).value
    requires forall i :: 0 <= i < |frames| ==> SampleOf(frames[i]).Ok?
    ensures TrackFrom(RecordFile(h, frames), h, index, st, policy, fps, SampleOf) == Ok(Build(st, SamplesOf(frames)[index..], policy, fps).points)
    decreases |frames| - index
  {
    var samples, data := SamplesOf(frames), RecordFile(h, frames);
    ReadRecording(h, frames, index);
    if index < |frames| {
      var st' := Step(st, samples[index], policy, fps);
      TrackFromNext(data, h, index, st, frames[index], policy, fps, SampleOf);
      assert TakeFrame(st, frames[index], policy, fps, SampleOf) == Ok(st');
      TrackFromRecording(h, frames, index + 1, st', policy, fps);
      assert samples[index..][1..] == samples[index + 1..];
    } else {
      assert samples[index..] == [];
    }
  }

  /** The first exception raised by reading a frame of a recording ends the track
      with that exception, whatever the frames after it hold. */
  lemma TrackOfRecordingFails(h: Header, frames: seq<Frame>, i: nat, onerror: string, fps: int)
    requires fps > 0
    requires h.magic == OSD_MAGIC && h.version == OSD_VERSION && VariantOf(h.fontVariant).Some?
    requires forall j :: 0 <= j < |frames| ==> frames[j].variant == VariantOf(h.fontVariant).value
    requires i < |frames| && SampleOf(frames[i]).Err?
    requires forall j :: 0 <= j < i ==> SampleOf(frames[j]).Ok?
    ensures TrackOf(RecordFile(h, frames), onerror, fps) == Err(SampleOf(frames[i]).error)
  {
    ParseRecording(h, frames);
    TrackFromFails(h, frames, i, 0, INITIAL, PolicyOf(onerror), fps);
  }

  lemma {:induction false} TrackFromFails(h: Header, frames: seq<Frame>, i: nat, index: nat, st: State, policy: Policy, fps: int)
    requires fps > 0 && |st.prev| == SLOTS && index <= i < |frames|
    requires VariantOf(h.fontVariant).Some?
    requires forall j :: 0 <= j < |frames| ==> frames[j].variant == VariantOf(h.fontVariant).value
    requires SampleOf(frames[i]).Err?
    requires forall j :: 0 <= j < i ==> SampleOf(frames[j]).Ok?
    ensures TrackFrom(RecordFile(h, frames), h, index, st, policy, fps, SampleOf) == Err(SampleOf(frames[i]).error)
    decreases i - index
  {
    ReadRecording(h, frames, index);
    TrackFromNext(RecordFile(h, frames), h, index, st, frames[index], policy, fps, SampleOf);
    if index < i {
      TrackFromFails(h, frames, i, index + 1, Step(st, SampleOf(frames[index]).value, policy, fps), policy, fps);
    }
  }

  /** The loop body of Track.__init__ after the readings are taken: drop a frame
      without readings, then fill in or drop as the policy says, and append the
      point. */
  method Apply(points: seq<Point>, prev: seq<string>, s: Sample, policy: Policy, fps: int)
      returns (points': seq<Point>, prev': seq<string>)
    requires fps > 0 && |prev| == SLOTS
    ensures State(points', prev') == Step(State(points, prev), s, policy, fps)
  {
    points', prev' := points, prev;
    var vs := [s.lat, s.lon, s.alt, s.spd, s.pwr];
    if AllNone(vs) {
      return;
    }
    match policy {
      case Skip =>
        if AnyNone(vs) {
          return;
        }
      case Empty =>
        vs := Present(FillFrom(vs, BLANKS));
      case Prev =>
        var filled := FillFrom(vs, prev);
        vs := Present(filled);
        prev' := filled;
      case Keep =>
    }
    var ts := TimestampMs(s.frameIdx, fps);
    points' := points + [Point(vs, ts)];
  }

  /** The loop body of Track.__init__ on one frame: take its five readings, then
      apply the policy. */
  method ReadFrame(points: seq<Point>, prev: seq<string>, f: Frame, policy: Policy, fps: int,
                   read: Frame -> Result<Sample>) returns (r: Result<State>)
    requires fps > 0 && |prev| == SLOTS
    ensures r == TakeFrame(State(points, prev), f, policy, fps, read)
  {
    var sample := read(f);
    if sample.Err? {
      return Err(sample.error);
    }
    var points', prev' := Apply(points, prev, sample.value, policy, fps);
    r := Ok(State(points', prev'));
  }

  /** A recording track: the points built by Track.__init__. */
  class Track {
    var points: seq<Point>

    constructor (points: seq<Point>)
      ensures this.points == points
    {
      this.points := points;
    }

    /** Track(osdpath, onerror, fps), on the contents of the file: open a reader,
        iterate over its frames, read each frame's five values and append a point
        as the policy says. */
    static method Load(data: seq<byte>, onerror: string, fps: int) returns (r: Result<Track>)
      requires fps > 0
      ensures r.Err? <==> TrackOf(data, onerror, fps).Err?
      ensures r.Err? ==> r.error == TrackOf(data, onerror, fps).error
      ensures r.Ok? ==> fresh(r.value) && r.value.points == TrackOf(data, onerror, fps).value
    {
      var res := Open(data);
      if res.Err? {
        return Err(res.error);
      }
      var rd := res.value;
      var it := rd.Iter();
      var points := Follow(it, PolicyOf(onerror), fps, SampleOf);
      if points.Err? {
        return Err(points.error);
      }
      var track := new Track(points.value);
      r := Ok(track);
    }

    /** `for fr in rd:` from the start of the iteration onwards, with the loop body
        on every frame, until the iteration stops or an exception is raised. */
    static method Follow(rd: Reader, policy: Policy, fps: int, read: Frame -> Result<Sample>) returns (r: Result<seq<Point>>)
      requires fps > 0 && rd.iterIndex == 0
      modifies rd
      ensures rd.data == old(rd.data) && rd.header == old(rd.header)
      ensures r == TrackFrom(rd.data, rd.header, 0, INITIAL, policy, fps, read)
    {
      ghost var goal := TrackFrom(rd.data, rd.header, 0, INITIAL, policy, fps, read);
      var points: seq<Point> := [];
      var prev: seq<string> := BLANKS;
      while true
        invariant rd.data == old(rd.data) && rd.header == old(rd.header)
        invariant 0 <= rd.iterIndex && FrameOffset(rd.iterIndex) <= |rd.data| + FRAME_BLOCK_SIZE
        invariant |prev| == SLOTS
        invariant TrackFrom(rd.data, rd.header, rd.iterIndex, State(points, prev), policy, fps, read) == goal
        decreases |rd.data| + FRAME_BLOCK_SIZE - FrameOffset(rd.iterIndex)
      {
        var next := Advance(rd, points, prev, policy, fps, read);
        match next {
          case Failed(e) => return Err(e);
          case Stopped => break;
          case Continued(st) => points, prev := st.points, st.prev;
        }
      }
      r := Ok(points);
    }
  }

  /** What one turn of `for fr in rd:` ends in. */
  datatype Turn = Failed(error: Error) | Stopped | Continued(st: State)

  /** One turn of `for fr in rd:` with the loop body: the next frame, then its
      readings and the policy. */
  method Advance(rd: Reader, points: seq<Point>, prev: seq<string>, policy: Policy, fps: int,
                 read: Frame -> Result<Sample>) returns (t: Turn)
    requires fps > 0 && |prev| == SLOTS && 0 <= rd.iterIndex
    modifies rd
    ensures rd.data == old(rd.data) && rd.header == old(rd.header)
    ensures var rest := TrackFrom(rd.data, rd.header, old(rd.iterIndex), State(points, prev), policy, fps, read);
      match t
      case Failed(e) => rest == Err(e)
      case Stopped => rest == Ok(points)
      case Continued(st) =>
        && |st.prev| == SLOTS
        && rd.iterIndex == old(rd.iterIndex) + 1
        && FrameOffset(old(rd.iterIndex)) < FrameOffset(rd.iterIndex) <= |rd.data|
        && rest == TrackFrom(rd.data, rd.header, rd.iterIndex, st, policy, fps, read)
  {
    ghost var index := rd.iterIndex;
    var fr := rd.Next();
    if fr.Err? {
      return Failed(fr.error);
    }
    if fr.value.None? {
      return Stopped;
    }
    FrameFits(rd.data, rd.header, index);
    TrackFromNext(rd.data, rd.header, index, State(points, prev), fr.value.value, policy, fps, read);
    var next := ReadFrame(points, prev, fr.value.value, policy, fps, read);
    if next.Err? {
      return Failed(next.error);
    }
    t := Continued(next.value);
  }
}
