/**
 * The server's request handlers once their locks are set aside: the sink
 * registry, the replay control dispatch, and the checks that guard replay
 * upload and deletion. Each handler is a method of `AppState`, proved against
 * a pure function that says what the handler answers and what it leaves behind.
 */
module Api {
  import opened Types
  import opened Text
  import Replay
  import IbtDecode

  /** The HTTP statuses the handlers answer with. */
  datatype Status = Success | Created | NoContent | BadRequest | NotFound | Conflict | ServerError

  function Code(s: Status): nat {
    match s
    case Success => 200
    case Created => 201
    case NoContent => 204
    case BadRequest => 400
    case NotFound => 404
    case Conflict => 409
    case ServerError => 500
  }

  /** An error answer: its status and its message text. */
  datatype Failure = Failure(status: Status, message: string)

  // ----- sinks -------------------------------------------------------------------

  type Port = p: int | 0 <= p < 0x1_0000

  /** `SinkType`: where a sink forwards frames. */
  datatype SinkType = Http(url: string) | Udp(host: string, port: Port) | File(path: string)

  /** `SinkConfig`: an id, a destination and the optional comma-separated field mask. */
  datatype SinkConfig = SinkConfig(id: string, sinkType: SinkType, fieldMask: Option<string>)

  /** The id `create_sink` gives a sink that arrives without one, with `len` sinks registered. */
  function GeneratedId(len: nat): (id: string)
    ensures StartsWith(id, "sink-")
    ensures AllDigits(id[5..]) && DigitsValue(id[5..]) == len + 1
    ensures |id| > 6 ==> id[5] != '0'
  {
    var digits := DecimalString(len + 1);
    DigitsOfDecimal(len + 1);
    assert ("sink-" + digits)[5..] == digits;
    "sink-" + digits
  }

  /** Distinct registry sizes give distinct generated ids. */
  lemma GeneratedIdInjective(a: nat, b: nat)
    requires GeneratedId(a) == GeneratedId(b)
    ensures a == b
  {
    assert GeneratedId(a)[5..] == GeneratedId(b)[5..];
  }

  /** The configuration `create_sink` stores: a missing (empty) id replaced by a generated one. */
  function WithId(config: SinkConfig, len: nat): (stored: SinkConfig)
    ensures stored.sinkType == config.sinkType && stored.fieldMask == config.fieldMask
    ensures config.id != "" ==> stored.id == config.id
    ensures config.id == "" ==> stored.id == GeneratedId(len)
    ensures stored.id != ""
  {
    if config.id == "" then config.(id := GeneratedId(len)) else config
  }

  /** `iter().position(|s| s.id == id)`: the first sink with that id. */
  function FirstIndex(sinks: seq<SinkConfig>, id: string): (r: Option<nat>)
    ensures r.Some? ==> r.value < |sinks| && sinks[r.value].id == id
    ensures r.Some? ==> forall j :: 0 <= j < r.value ==> sinks[j].id != id
    ensures r.None? ==> forall j :: 0 <= j < |sinks| ==> sinks[j].id != id
  {
    if |sinks| == 0 then None
    else if sinks[0].id == id then Some(0)
    else match FirstIndex(sinks[1..], id)
      case None => None
      case Some(i) => Some(i + 1)
  }

  /** The registry after deleting `id`, or None when no sink has that id. */
  function Deleted(sinks: seq<SinkConfig>, id: string): Option<seq<SinkConfig>> {
    match FirstIndex(sinks, id)
    case None => None
    case Some(i) => Some(sinks[..i] + sinks[i + 1..])
  }

  /**
   * Deleting finds a sink exactly when one has that id; it then drops the first
   * such sink only, keeping the others in their order.
   */
  lemma DeletedSpec(sinks: seq<SinkConfig>, id: string)
    ensures Deleted(sinks, id).Some? <==> exists j :: 0 <= j < |sinks| && sinks[j].id == id
    ensures Deleted(sinks, id).Some? ==>
      var i := FirstIndex(sinks, id).value;
      var r := Deleted(sinks, id).value;
      && |r| == |sinks| - 1
      && (forall j :: 0 <= j < i ==> r[j] == sinks[j] && r[j].id != id)
      && (forall j :: i <= j < |r| ==> r[j] == sinks[j + 1])
      && multiset(r) + multiset{sinks[i]} == multiset(sinks)
  {
    match FirstIndex(sinks, id)
    case None =>
    case Some(i) =>
      assert sinks == sinks[..i] + [sinks[i]] + sinks[i + 1..];
  }

  /** Deleting the id of a just-created sink whose id was new restores the registry. */
  lemma CreateThenDeleteFresh(sinks: seq<SinkConfig>, config: SinkConfig)
    requires forall j :: 0 <= j < |sinks| ==> sinks[j].id != WithId(config, |sinks|).id
    ensures Deleted(sinks + [WithId(config, |sinks|)], WithId(config, |sinks|).id) == Some(sinks)
  {
    var s := sinks + [WithId(config, |sinks|)];
    forall j | 0 <= j < |sinks|
      ensures s[j].id != WithId(config, |sinks|).id
    {
      assert s[j] == sinks[j];
    }
    assert s[|sinks|] == WithId(config, |sinks|);
    assert FirstIndex(s, WithId(config, |sinks|).id) == Some(|sinks|);
    assert s[..|sinks|] + s[|sinks| + 1..] == sinks;
  }

  // ----- replay control -------------------------------------------------------------

  /** The answers of `replay_control`. */
  datatype ControlReply =
    | Playing
    | Paused
    | Seeked(frame: nat)
    | SpeedSet(speed: real)
    | Refused(failure: Failure)

  const UsizeMax: nat := 0x1_0000_0000_0000_0000 - 1

  /** Rust's saturating `f64 as usize`: negatives to 0, fractions cut off, large values to the maximum. */
  function AsUsize(v: real): (n: nat)
    ensures n <= UsizeMax
    ensures v <= 0.0 ==> n == 0
    ensures 0.0 <= v < UsizeMax as real ==> n as real <= v < n as real + 1.0
    ensures v >= UsizeMax as real ==> n == UsizeMax
  {
    if v <= 0.0 then 0 else if v >= UsizeMax as real then UsizeMax else v.Floor
  }

  predicate KnownAction(action: string) {
    action == "play" || action == "pause" || action == "seek" || action == "speed"
  }

  predicate NeedsValue(action: string) {
    action == "seek" || action == "speed"
  }

  /**
   * `replay_control`: the cursor after the request (None when there is no
   * replay) and the answer.
   */
  function Control(c: Option<Replay.Cursor>, action: string, value: Option<real>): (r: (Option<Replay.Cursor>, ControlReply))
    ensures c.None? ==> r == (None, Refused(Failure(NotFound, "No active replay")))
    ensures c.Some? ==> (r.1.Refused? <==> !KnownAction(action) || (NeedsValue(action) && value.None?))
    ensures r.1.Refused? ==> r.0 == c
    ensures r.1.Refused? && c.Some? ==> r.1.failure.status == BadRequest
    ensures !r.1.Refused? ==> c.Some? && r.0.Some?
  {
    match c
    case None => (None, Refused(Failure(NotFound, "No active replay")))
    case Some(cur) =>
      if action == "play" then (Some(Replay.Step(cur, Replay.Play)), Playing)
      else if action == "pause" then (Some(Replay.Step(cur, Replay.Pause)), Paused)
      else if action == "seek" then
        (match value
         case None => (c, Refused(Failure(BadRequest, "Missing 'value' for seek")))
         case Some(v) =>
           var next := Replay.Step(cur, Replay.Seek(AsUsize(v)));
           (Some(next), Seeked(next.frame)))
      else if action == "speed" then
        (match value
         case None => (c, Refused(Failure(BadRequest, "Missing 'value' for speed")))
         case Some(v) =>
           var next := Replay.Step(cur, Replay.SetSpeed(v));
           (Some(next), SpeedSet(next.speed)))
      else (c, Refused(Failure(BadRequest, "Unknown action: " + action)))
  }

  /** A seek reports the frame the cursor was clamped to, not the value asked for. */
  lemma SeekReportsClampedFrame(c: Replay.Cursor, v: real)
    ensures Control(Some(c), "seek", Some(v)).1 == Seeked(Min(AsUsize(v), Replay.LastFrame(c.total)))
    ensures Control(Some(c), "seek", Some(v)).0 == Some(c.(frame := Min(AsUsize(v), Replay.LastFrame(c.total))))
  {
    Replay.SeekClamps(c, AsUsize(v));
  }

  /** Play and pause answer with the new state and change only the playing flag. */
  lemma PlayPauseReplies(c: Replay.Cursor, value: Option<real>)
    ensures Control(Some(c), "play", value) == (Some(c.(playing := true)), Playing)
    ensures Control(Some(c), "pause", value) == (Some(c.(playing := false)), Paused)
  {
    Replay.PlayPauseOnlyPlaying(c);
  }

  /** A speed request reports the clamped speed and changes nothing else. */
  lemma SpeedReportsClampedSpeed(c: Replay.Cursor, v: real)
    ensures Control(Some(c), "speed", Some(v)).1 == SpeedSet(Replay.ClampSpeed(v))
    ensures Control(Some(c), "speed", Some(v)).0 == Some(c.(speed := Replay.ClampSpeed(v)))
  {
  }

  /** Every control request keeps the cursor valid and keeps its frame count. */
  lemma ControlKeepsValid(c: Replay.Cursor, action: string, value: Option<real>)
    requires Replay.Valid(c)
    ensures Control(Some(c), action, value).0.Some?
    ensures Replay.Valid(Control(Some(c), action, value).0.value)
    ensures Control(Some(c), action, value).0.value.total == c.total
  {
    if action == "play" {
      Replay.StepValid(c, Replay.Play);
    } else if action == "pause" {
      Replay.StepValid(c, Replay.Pause);
    } else if action == "seek" && value.Some? {
      Replay.StepValid(c, Replay.Seek(AsUsize(value.value)));
    } else if action == "speed" && value.Some? {
      Replay.StepValid(c, Replay.SetSpeed(value.value));
    }
  }

  // ----- replay upload ---------------------------------------------------------------

  /** The first multipart field of an upload, as far as the handler looks at it. */
  datatype UploadPart =
    | UnreadablePart(reason: string)
    | NoPart
    | FilePart(fileName: Option<string>, data: Result<seq<IbtDecode.Byte>, string>)

  /** The file name an upload is stored under. */
  function UploadName(fileName: Option<string>): string {
    fileName.GetOr("upload.ibt")
  }

  /** Only `.ibt` files are accepted, whatever the case of the extension. */
  predicate IsIbtName(name: string) {
    EndsWith(Lower(name), ".ibt")
  }

  /**
   * The checks `replay_upload` makes before writing anything: no replay may be
   * active, a field must be readable and present, its name must end in `.ibt`
   * and its bytes must be readable. On success: the name and the bytes.
   */
  function ValidateUpload(replayPresent: bool, part: UploadPart): (r: Result<(string, seq<IbtDecode.Byte>), Failure>)
    ensures replayPresent ==> r == Err(Failure(Conflict, "A replay is already active. Delete it first."))
    ensures r.Ok? <==> !replayPresent && part.FilePart? && IsIbtName(UploadName(part.fileName)) && part.data.Ok?
    ensures r.Ok? ==> r.value == (UploadName(part.fileName), part.data.value)
    ensures r.Err? && !replayPresent ==> r.error.status == BadRequest
  {
    if replayPresent then Err(Failure(Conflict, "A replay is already active. Delete it first."))
    else match part
      case UnreadablePart(reason) => Err(Failure(BadRequest, "Failed to read upload: " + reason))
      case NoPart => Err(Failure(BadRequest, "No file provided"))
      case FilePart(fileName, data) =>
        var name := UploadName(fileName);
        if !IsIbtName(name) then Err(Failure(BadRequest, "Only .ibt files are supported"))
        else match data
          case Err(reason) => Err(Failure(BadRequest, "Failed to read file data: " + reason))
          case Ok(bytes) => Ok((name, bytes))
  }

  /** A field without a file name is taken as `upload.ibt`, which passes the extension check. */
  lemma MissingNameDefaults(bytes: seq<IbtDecode.Byte>)
    ensures ValidateUpload(false, FilePart(None, Ok(bytes))) == Ok(("upload.ibt", bytes))
  {
    assert Lower("upload.ibt") == "upload.ibt";
  }

  /** The extension test ignores case: a name passes exactly when its lowercase form does. */
  lemma ExtensionIgnoresCase(name: string)
    ensures IsIbtName(name) <==> IsIbtName(Lower(name))
  {
    LowerIdempotent(name);
  }

  /** The extension test of a name whose last four characters are some case of `.ibt`. */
  lemma UpperCaseExtensionAccepted(stem: string)
    ensures IsIbtName(stem + ".IBT") && IsIbtName(stem + ".Ibt") && IsIbtName(stem + ".ibt")
  {
    LowerAppend(stem, ".IBT");
    LowerAppend(stem, ".Ibt");
    LowerAppend(stem, ".ibt");
    assert Lower(".IBT") == ".ibt";
    assert Lower(".Ibt") == ".ibt";
    assert Lower(".ibt") == ".ibt";
  }

  /**
   * The steps after validation: the temporary directory, the file write and
   * the parse of the written file (each given as its outcome).
   */
  function StoreUpload(dirOk: bool, writeOk: bool, parsed: Result<IbtDecode.IbtFile, string>): (r: Result<IbtDecode.IbtFile, Failure>)
    ensures r.Ok? <==> dirOk && writeOk && parsed.Ok?
    ensures r.Ok? ==> r.value == parsed.value
    ensures r.Err? ==> r.error.status == (if dirOk && writeOk then BadRequest else ServerError)
  {
    if !dirOk then Err(Failure(ServerError, "Failed to create temp dir"))
    else if !writeOk then Err(Failure(ServerError, "Failed to write temp file"))
    else match parsed
      case Err(reason) => Err(Failure(BadRequest, "Failed to parse .ibt file: " + reason))
      case Ok(file) => Ok(file)
  }

  // ----- the shared state the handlers work on ----------------------------------------------

  /** The parts of the server state these handlers read and change. */
  class AppState {
    var sinks: seq<SinkConfig>
    var replay: Option<Replay.ReplayState>
    /** Whether a playback task's cancellation token is stored. */
    var playbackToken: bool

    /** The replay cursor, when there is a replay. */
    function CursorOf(): Option<Replay.Cursor>
      reads this, if replay.Some? then {replay.value} else {}
    {
      if replay.Some? then Some(replay.value.Model()) else None
    }

    predicate Valid()
      reads this, if replay.Some? then {replay.value} else {}
    {
      replay.Some? ==> replay.value.Inv()
    }

    /** `AppState::new`: no sinks, no replay, no playback task. */
    constructor ()
      ensures sinks == [] && replay.None? && !playbackToken && Valid()
    {
      sinks := [];
      replay := None;
      playbackToken := false;
    }

    /** `create_sink`: stores the configuration, with an id generated when it has none. */
    method CreateSink(config: SinkConfig) returns (status: Status, stored: SinkConfig)
      modifies this
      ensures status == Created
      ensures stored == WithId(config, |old(sinks)|)
      ensures sinks == old(sinks) + [stored]
      ensures replay == old(replay) && playbackToken == old(playbackToken)
      ensures old(Valid()) ==> Valid()
    {
      stored := WithId(config, |sinks|);
      sinks := sinks + [stored];
      status := Created;
    }

    /** `delete_sink`: 204 after removing the first sink with the id, 404 when none has it. */
    method DeleteSink(id: string) returns (status: Status)
      modifies this
      ensures Deleted(old(sinks), id).Some? ==> status == NoContent && sinks == Deleted(old(sinks), id).value
      ensures Deleted(old(sinks), id).None? ==> status == NotFound && sinks == old(sinks)
      ensures replay == old(replay) && playbackToken == old(playbackToken)
      ensures old(Valid()) ==> Valid()
    {
      var pos := Position(sinks, id);
      match pos {
        case Some(i) =>
          sinks := sinks[..i] + sinks[i + 1..];
          status := NoContent;
        case None =>
          status := NotFound;
      }
    }

    /**
     * `replay_upload`: on success a fresh replay from the parsed file, with a
     * playback task started; on failure nothing changes.
     */
    method ReplayUpload(part: UploadPart, dirOk: bool, writeOk: bool, parsed: Result<IbtDecode.IbtFile, string>)
      returns (failure: Option<Failure>)
      modifies this
      ensures sinks == old(sinks)
      ensures var v := ValidateUpload(old(replay).Some?, part);
        failure == (if v.Err? then Some(v.error)
                    else if StoreUpload(dirOk, writeOk, parsed).Err? then Some(StoreUpload(dirOk, writeOk, parsed).error)
                    else None)
      ensures failure.Some? ==> replay == old(replay) && playbackToken == old(playbackToken)
      ensures failure.None? ==>
        && replay.Some? && fresh(replay.value) && replay.value.ibt == parsed.value
        && replay.value.Model() == Replay.Initial(parsed.value.recordCount)
        && playbackToken
      ensures old(Valid()) ==> Valid()
    {
      var checked := ValidateUpload(replay.Some?, part);
      if checked.Err? {
        return Some(checked.error);
      }
      var stored := StoreUpload(dirOk, writeOk, parsed);
      if stored.Err? {
        return Some(stored.error);
      }
      var rs := new Replay.ReplayState.FromFile(stored.value);
      replay := Some(rs);
      playbackToken := true;
      failure := None;
    }

    /** `replay_control`: the dispatch of `Control`, carried out on the replay object. */
    method ReplayControl(action: string, value: Option<real>) returns (reply: ControlReply)
      requires Valid()
      modifies if replay.Some? then {replay.value} else {}
      ensures Valid()
      ensures (CursorOf(), reply) == Control(old(CursorOf()), action, value)
    {
      if replay.None? {
        return Refused(Failure(NotFound, "No active replay"));
      }
      var rs := replay.value;
      if action == "play" {
        rs.Play();
        reply := Playing;
      } else if action == "pause" {
        rs.Pause();
        reply := Paused;
      } else if action == "seek" {
        if value.None? {
          return Refused(Failure(BadRequest, "Missing 'value' for seek"));
        }
        rs.Seek(AsUsize(value.value));
        reply := Seeked(rs.currentFrame);
      } else if action == "speed" {
        if value.None? {
          return Refused(Failure(BadRequest, "Missing 'value' for speed"));
        }
        rs.SetSpeed(value.value);
        reply := SpeedSet(rs.playbackSpeed);
      } else {
        reply := Refused(Failure(BadRequest, "Unknown action: " + action));
      }
    }

    /** `replay_delete`: cancels any playback task, then 404 without a replay or 204 after clearing it. */
    method ReplayDelete() returns (status: Status)
      modifies this
      ensures !playbackToken && replay.None? && sinks == old(sinks)
      ensures status == (if old(replay).Some? then NoContent else NotFound)
    {
      playbackToken := false;
      if replay.None? {
        return NotFound;
      }
      replay := None;
      status := NoContent;
    }
  }

  /** The scan behind `iter().position`. */
  method Position(sinks: seq<SinkConfig>, id: string) returns (pos: Option<nat>)
    ensures pos == FirstIndex(sinks, id)
  {
    var i := 0;
    while i < |sinks|
      invariant 0 <= i <= |sinks|
      invariant forall j :: 0 <= j < i ==> sinks[j].id != id
    {
      if sinks[i].id == id {
        return Some(i);
      }
      i := i + 1;
    }
    pos := None;
  }
}
