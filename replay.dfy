/**
 * The server's replay cursor: playback control over the frames of a loaded
 * .ibt file and the paged frame-range read.
 * The pure part (`Cursor`, `Step`) is the specification; `ReplayState` is the
 * stateful object, each of whose methods is proved to take one `Step`.
 */
module Replay {
  import opened Types
  import IbtDecode

  /** The most frames one range request returns (two minutes at 60 Hz). */
  const MaxRangeCount: nat := 7200
  const MinSpeed: real := 0.1
  const MaxSpeed: real := 16.0

  /** `usize::saturating_sub`. */
  function SaturatingSub(a: nat, b: nat): (r: nat)
    ensures a >= b ==> r == a - b
    ensures a < b ==> r == 0
  {
    if a >= b then a - b else 0
  }

  /** The index of the last frame; 0 for an empty recording. */
  function LastFrame(total: nat): nat {
    SaturatingSub(total, 1)
  }

  /** `f64::clamp(speed, 0.1, 16.0)` on the reals (NaN has no counterpart). */
  function ClampSpeed(speed: real): (r: real)
    ensures MinSpeed <= r <= MaxSpeed
    ensures MinSpeed <= speed <= MaxSpeed ==> r == speed
    ensures speed < MinSpeed ==> r == MinSpeed
    ensures speed > MaxSpeed ==> r == MaxSpeed
  {
    if speed < MinSpeed then MinSpeed else if speed > MaxSpeed then MaxSpeed else speed
  }

  /** The playback fields of a replay. */
  datatype Cursor = Cursor(frame: nat, total: nat, playing: bool, speed: real)

  /** The cursor is on a frame of the recording and the speed is in range. */
  predicate Valid(c: Cursor) {
    c.frame <= LastFrame(c.total) && MinSpeed <= c.speed <= MaxSpeed
  }

  /** The cursor of a freshly loaded replay. */
  function Initial(total: nat): (c: Cursor)
    ensures Valid(c)
  {
    Cursor(0, total, true, 1.0)
  }

  datatype Command = Play | Pause | Seek(target: nat) | SetSpeed(speed: real) | Advance

  /** `advance`: the new cursor and the frame it reports, if any. */
  function AdvanceStep(c: Cursor): (Cursor, Option<nat>) {
    if !c.playing then (c, None)
    else if c.frame >= LastFrame(c.total) then (c.(playing := false), None)
    else (c.(frame := c.frame + 1), Some(c.frame + 1))
  }

  /** One control operation on the cursor. */
  function Step(c: Cursor, cmd: Command): Cursor {
    match cmd
    case Play => c.(playing := true)
    case Pause => c.(playing := false)
    case Seek(target) => c.(frame := if target <= LastFrame(c.total) then target else LastFrame(c.total))
    case SetSpeed(speed) => c.(speed := ClampSpeed(speed))
    case Advance => AdvanceStep(c).0
  }

  /** A sequence of control operations, in order. */
  function Run(c: Cursor, cmds: seq<Command>): Cursor
    decreases cmds
  {
    if |cmds| == 0 then c else Run(Step(c, cmds[0]), cmds[1..])
  }

  /** Every operation keeps the cursor valid. */
  lemma StepValid(c: Cursor, cmd: Command)
    requires Valid(c)
    ensures Valid(Step(c, cmd)) && Step(c, cmd).total == c.total
  {
  }

  /** Any sequence of operations keeps the cursor valid. */
  lemma {:induction false} RunValid(c: Cursor, cmds: seq<Command>)
    requires Valid(c)
    ensures Valid(Run(c, cmds)) && Run(c, cmds).total == c.total
    decreases cmds
  {
    if |cmds| > 0 {
      StepValid(c, cmds[0]);
      RunValid(Step(c, cmds[0]), cmds[1..]);
    }
  }

  /** From a fresh replay, the cursor never leaves [0, total - 1] (or 0 when empty). */
  lemma FreshReplayStaysInRange(total: nat, cmds: seq<Command>)
    ensures Run(Initial(total), cmds).frame <= LastFrame(total)
    ensures MinSpeed <= Run(Initial(total), cmds).speed <= MaxSpeed
  {
    RunValid(Initial(total), cmds);
  }

  /** `seek` lands on the requested frame clamped into the recording; seeking twice is seeking once. */
  lemma SeekClamps(c: Cursor, target: nat)
    ensures Step(c, Seek(target)).frame == Types.Min(target, LastFrame(c.total))
    ensures Step(Step(c, Seek(target)), Seek(target)) == Step(c, Seek(target))
    ensures Step(c, Seek(target)) == c.(frame := Step(c, Seek(target)).frame)
  {
  }

  /** `play` and `pause` change only whether the replay is playing. */
  lemma PlayPauseOnlyPlaying(c: Cursor)
    ensures Step(c, Play) == c.(playing := true)
    ensures Step(c, Pause) == c.(playing := false)
  {
  }

  /** The three outcomes of `advance`. */
  lemma AdvanceCases(c: Cursor)
    ensures !c.playing ==> AdvanceStep(c) == (c, None)
    ensures c.playing && c.frame >= LastFrame(c.total) ==> AdvanceStep(c) == (c.(playing := false), None)
    ensures c.playing && c.frame < LastFrame(c.total) ==>
      AdvanceStep(c).1 == Some(c.frame + 1) && AdvanceStep(c).0 == c.(frame := c.frame + 1)
  {
  }

  /** `advance` applied `k` times. */
  function AdvanceTimes(c: Cursor, k: nat): Cursor
    decreases k
  {
    if k == 0 then c else AdvanceTimes(Step(c, Advance), k - 1)
  }

  /** While frames remain, each tick moves the cursor one frame on and playback goes on. */
  lemma {:induction false} AdvanceTimesMoves(c: Cursor, k: nat)
    requires c.playing && c.frame + k <= LastFrame(c.total)
    ensures AdvanceTimes(c, k) == c.(frame := c.frame + k)
    decreases k
  {
    if k > 0 {
      AdvanceTimesMoves(Step(c, Advance), k - 1);
    }
  }

  /** A stopped replay stays where it is however often it is ticked. */
  lemma {:induction false} AdvanceTimesStopped(c: Cursor, k: nat)
    requires !c.playing
    ensures AdvanceTimes(c, k) == c
    decreases k
  {
    if k > 0 {
      AdvanceTimesStopped(Step(c, Advance), k - 1);
    }
  }

  /**
   * Playing through: from frame f, `LastFrame - f` ticks reach the last frame and
   * the next one stops playback there.
   */
  lemma PlaybackReachesEnd(c: Cursor)
    requires Valid(c) && c.playing
    ensures var k := LastFrame(c.total) - c.frame;
      && AdvanceTimes(c, k) == c.(frame := LastFrame(c.total))
      && AdvanceTimes(c, k + 1) == c.(frame := LastFrame(c.total), playing := false)
  {
    var k := LastFrame(c.total) - c.frame;
    AdvanceTimesMoves(c, k);
    AdvanceTimesFirst(c, k);
  }

  /** Advancing `k + 1` times is advancing `k` times and then once more. */
  lemma {:induction false} AdvanceTimesFirst(c: Cursor, k: nat)
    ensures AdvanceTimes(c, k + 1) == Step(AdvanceTimes(c, k), Advance)
    decreases k
  {
    if k > 0 {
      AdvanceTimesFirst(Step(c, Advance), k - 1);
    }
  }

  /**
   * The frames a range request reads: the start clamped to the last frame, and
   * the count capped by the request, by `MaxRangeCount` and by the frames left.
   */
  function FrameWindow(start: nat, count: nat, total: nat): (w: (nat, nat))
    ensures w.0 <= LastFrame(total)
    ensures start <= LastFrame(total) ==> w.0 == start
    ensures start > LastFrame(total) ==> w.0 == LastFrame(total)
    ensures w.1 <= count && w.1 <= MaxRangeCount && w.0 + w.1 <= total
    ensures w.1 == count || w.1 == MaxRangeCount || w.0 + w.1 == total
  {
    var s := Types.Min(start, LastFrame(total));
    (s, Types.Min(Types.Min(count, MaxRangeCount), SaturatingSub(total, s)))
  }

  /** The replay session. The recording is read-only; the playback fields change. */
  class ReplayState {
    const ibt: IbtDecode.IbtFile
    const totalFrames: nat
    const tickRate: nat
    const trackName: string
    const carName: string
    var currentFrame: nat
    var playing: bool
    var playbackSpeed: real

    /** The playback fields as a `Cursor`. */
    function Model(): Cursor
      reads this
    {
      Cursor(currentFrame, totalFrames, playing, playbackSpeed)
    }

    /** The object invariant: the cursor is valid and counts the recording's records. */
    predicate Inv()
      reads this
    {
      Valid(Model()) && totalFrames == ibt.recordCount
    }

    /** `from_file`, after the file has been opened and decoded. */
    constructor FromFile(file: IbtDecode.IbtFile)
      ensures ibt == file && Model() == Initial(file.recordCount) && Inv()
      ensures tickRate == file.tickRate
      ensures trackName == file.sessionInfo.trackDisplayName && carName == file.sessionInfo.carName
    {
      ibt := file;
      totalFrames := file.recordCount;
      tickRate := file.tickRate;
      trackName := file.sessionInfo.trackDisplayName;
      carName := file.sessionInfo.carName;
      currentFrame := 0;
      playing := true;
      playbackSpeed := 1.0;
    }

    method Play()
      requires Inv()
      modifies this
      ensures Model() == Step(old(Model()), Command.Play) && Inv()
    {
      playing := true;
    }

    method Pause()
      requires Inv()
      modifies this
      ensures Model() == Step(old(Model()), Command.Pause) && Inv()
    {
      playing := false;
    }

    method Seek(frame: nat)
      requires Inv()
      modifies this
      ensures Model() == Step(old(Model()), Command.Seek(frame)) && Inv()
    {
      currentFrame := Types.Min(frame, SaturatingSub(totalFrames, 1));
    }

    method SetSpeed(speed: real)
      requires Inv()
      modifies this
      ensures Model() == Step(old(Model()), Command.SetSpeed(speed)) && Inv()
    {
      playbackSpeed := ClampSpeed(speed);
    }

    /** One playback tick: the frame now showing, or None when nothing moved. */
    method Advance() returns (shown: Option<nat>)
      requires Inv()
      modifies this
      ensures (Model(), shown) == AdvanceStep(old(Model())) && Inv()
    {
      if !playing {
        return None;
      }
      if currentFrame >= SaturatingSub(totalFrames, 1) {
        playing := false;
        return None;
      }
      currentFrame := currentFrame + 1;
      return Some(currentFrame);
    }

    /**
     * `get_frames_range`: the samples of the clamped window with their frame
     * indices, which run on from the window's start without gaps.
     */
    method GetFramesRange(start: nat, count: nat) returns (r: Result<seq<(nat, IbtDecode.Sample)>, IbtDecode.DecodeError>)
      requires Inv()
      ensures var (s, n) := FrameWindow(start, count, totalFrames);
        r.Err? <==> totalFrames == 0 || (n > 0 && !IbtDecode.Readable(ibt, s, n))
      ensures var (s, n) := FrameWindow(start, count, totalFrames);
        r.Ok? ==> && |r.value| == n
                  && IbtDecode.Readable(ibt, s, n)
                  && forall i :: 0 <= i < n ==>
                       r.value[i].0 == s + i && r.value[i].1 == IbtDecode.RangeSamples(ibt, s, n)[i]
    {
      var maxCount := MaxRangeCount;
      var clampedStart := Types.Min(start, SaturatingSub(totalFrames, 1));
      var clampedCount := Types.Min(Types.Min(count, maxCount), SaturatingSub(totalFrames, clampedStart));
      var samples := IbtDecode.ReadSamplesRange(ibt, clampedStart, clampedCount);
      if samples.Err? {
        return Err(samples.error);
      }
      var frames: seq<(nat, IbtDecode.Sample)> := [];
      for i := 0 to |samples.value|
        invariant |frames| == i
        invariant forall j :: 0 <= j < i ==> frames[j] == (clampedStart + j, samples.value[j])
      {
        frames := frames + [(clampedStart + i, samples.value[i])];
      }
      return Ok(frames);
    }
  }
}
