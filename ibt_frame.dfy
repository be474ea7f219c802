/**
 * The parts of `sample_to_frame` that are not floating-point arithmetic: the
 * player track-surface table and the selection of "extras", the variables
 * that no structured field takes.
 */
module IbtFrame {
  import opened Text
  import IbtDecode

  datatype TrackSurface =
    | NotInWorld | Undefined | Asphalt | Concrete | RacingDirt | Paint | Rumble
    | Grass | Dirt | Sand | Gravel | Grasscrete | Astroturf | Unknown

  /** The surface an iRacing `PlayerTrackSurface` code stands for. */
  function TrackSurfaceOf(code: int): (s: TrackSurface)
    ensures s == NotInWorld <==> code == -1
    ensures s == Undefined <==> code == 0
    ensures s == Asphalt <==> 1 <= code <= 4
    ensures s == Concrete <==> code == 6 || code == 7
    ensures s == RacingDirt <==> code == 8 || code == 9
    ensures s == Paint <==> code == 10 || code == 11
    ensures s == Rumble <==> 12 <= code <= 15
    ensures s == Grass <==> 16 <= code <= 19
    ensures s == Dirt <==> 20 <= code <= 23
    ensures s == Sand <==> code == 24
    ensures s == Gravel <==> 25 <= code <= 28
    ensures s == Grasscrete <==> code == 29
    ensures s == Astroturf <==> code == 30
    ensures s == Unknown <==> code < -1 || code == 5 || code > 30
  {
    if code == -1 then NotInWorld
    else if code == 0 then Undefined
    else if 1 <= code <= 4 then Asphalt
    else if code == 6 || code == 7 then Concrete
    else if code == 8 || code == 9 then RacingDirt
    else if code == 10 || code == 11 then Paint
    else if 12 <= code <= 15 then Rumble
    else if 16 <= code <= 19 then Grass
    else if 20 <= code <= 23 then Dirt
    else if code == 24 then Sand
    else if 25 <= code <= 28 then Gravel
    else if code == 29 then Grasscrete
    else if code == 30 then Astroturf
    else Unknown
  }

  /** Every surface, Unknown included, is the reading of some code in -1..30. */
  lemma TrackSurfaceCodes(s: TrackSurface)
    ensures exists code :: -1 <= code <= 30 && TrackSurfaceOf(code) == s
  {
    match s
    case NotInWorld => assert TrackSurfaceOf(-1) == s;
    case Undefined => assert TrackSurfaceOf(0) == s;
    case Asphalt => assert TrackSurfaceOf(1) == s;
    case Concrete => assert TrackSurfaceOf(6) == s;
    case RacingDirt => assert TrackSurfaceOf(8) == s;
    case Paint => assert TrackSurfaceOf(10) == s;
    case Rumble => assert TrackSurfaceOf(12) == s;
    case Grass => assert TrackSurfaceOf(16) == s;
    case Dirt => assert TrackSurfaceOf(20) == s;
    case Sand => assert TrackSurfaceOf(24) == s;
    case Gravel => assert TrackSurfaceOf(25) == s;
    case Grasscrete => assert TrackSurfaceOf(29) == s;
    case Astroturf => assert TrackSurfaceOf(30) == s;
    case Unknown => assert TrackSurfaceOf(5) == s;
  }

  /** The variables that structured telemetry fields already take. */
  const MappedVars: set<string> := {
    "VelocityX", "VelocityY", "VelocityZ", "LatAccel", "LongAccel", "VertAccel", "Pitch",
    "Yaw", "Roll", "PitchRate", "YawRate", "RollRate", "Speed", "RPM", "Gear", "Throttle",
    "Brake", "Clutch", "SteeringWheelAngle", "SteeringWheelTorque", "SteeringWheelPctTorque",
    "IsOnTrack", "IsInGarage", "PlayerTrackSurface", "WaterTemp", "OilTemp", "OilPress",
    "OilLevel", "FuelLevel", "FuelLevelPct", "FuelPress", "FuelUsePerHour", "Voltage",
    "ManifoldPress", "EngineWarnings", "LFshockDefl", "LFshockDeflST", "LFshockVel",
    "LFshockVelST", "LFrideHeight", "LFairPressure", "LFcoldPressure", "LFtempCL", "LFtempCC",
    "LFtempCR", "LFtempL", "LFtempM", "LFtempR", "LFwear", "LFspeed", "LFbrakeLinePress",
    "RFshockDefl", "RFshockDeflST", "RFshockVel", "RFshockVelST", "RFrideHeight",
    "RFairPressure", "RFcoldPressure", "RFtempCL", "RFtempCC", "RFtempCR", "RFtempL",
    "RFtempM", "RFtempR", "RFwear", "RFspeed", "RFbrakeLinePress", "LRshockDefl",
    "LRshockDeflST", "LRshockVel", "LRshockVelST", "LRrideHeight", "LRairPressure",
    "LRcoldPressure", "LRtempCL", "LRtempCC", "LRtempCR", "LRtempL", "LRtempM", "LRtempR",
    "LRwear", "LRspeed", "LRbrakeLinePress", "RRshockDefl", "RRshockDeflST", "RRshockVel",
    "RRshockVelST", "RRrideHeight", "RRairPressure", "RRcoldPressure", "RRtempCL", "RRtempCC",
    "RRtempCR", "RRtempL", "RRtempM", "RRtempR", "RRwear", "RRspeed", "RRbrakeLinePress",
    "LapCurrentLapTime", "LapLastLapTime", "LapBestLapTime", "LapBestNLapTime",
    "LapBestNLapLap", "Lap", "LapCompleted", "LapDist", "LapDistPct", "PlayerCarPosition",
    "PlayerCarClassPosition", "LapDeltaToBestLap", "LapDeltaToBestLap_OK",
    "LapDeltaToSessionBestLap", "LapDeltaToSessionBestLap_OK", "LapDeltaToOptimalLap",
    "LapDeltaToOptimalLap_OK", "RaceLaps", "SessionState", "SessionTime", "SessionTimeRemain",
    "SessionTimeOfDay", "SessionLapsRemainEx", "SessionFlags", "SessionNum", "AirTemp",
    "TrackTempCrew", "AirPressure", "AirDensity", "RelativeHumidity", "WindVel", "WindDir",
    "FogLevel", "Precipitation", "TrackWetness", "Skies", "WeatherDeclaredWet", "OnPitRoad",
    "PitstopActive", "PlayerCarPitSvStatus", "PitRepairLeft", "PitOptRepairLeft",
    "FastRepairAvailable", "FastRepairUsed", "dpFuelFill", "dpFuelAddKg", "dpLFTireChange",
    "dpRFTireChange", "dpLRTireChange", "dpRRTireChange", "dpLFTireColdPress",
    "dpRFTireColdPress", "dpLRTireColdPress", "dpRRTireColdPress", "dpWindshieldTearoff",
    "dpFastRepair", "dcABS", "dcTractionControl", "dcTractionControl2", "dcBrakeBias",
    "dcAntiRollFront", "dcAntiRollRear", "DRS_Status", "dcThrottleShape", "PushToPass",
    "CarIdxLap", "CarIdxLapCompleted", "CarIdxLapDistPct", "CarIdxPosition",
    "CarIdxClassPosition", "CarIdxOnPitRoad", "CarIdxTrackSurface", "CarIdxBestLapTime",
    "CarIdxLastLapTime", "CarIdxEstTime", "CarIdxGear", "CarIdxRPM", "CarIdxSteer",
    "SessionTick"
  }

  const ExtrasPrefix := "iracing/"

  /** A variable that goes to extras: not mapped and not a per-car array. */
  predicate IsExtra(name: string) {
    name !in MappedVars && !StartsWith(name, "CarIdx")
  }

  function ExtraKey(name: string): string {
    ExtrasPrefix + name
  }

  lemma ExtraKeyInjective(a: string, b: string)
    requires ExtraKey(a) == ExtraKey(b)
    ensures a == b
  {
    assert a == ExtraKey(a)[|ExtrasPrefix|..];
    assert b == ExtraKey(b)[|ExtrasPrefix|..];
  }

  /** The extras of those variables of `sample` whose names are in `names`. */
  function ExtrasOver(sample: IbtDecode.Sample, names: set<string>): map<string, IbtDecode.VarValue> {
    map key | key in KeysOver(sample, names) :: sample[key[|ExtrasPrefix|..]]
  }

  function KeysOver(sample: IbtDecode.Sample, names: set<string>): (keys: set<string>)
    ensures forall key :: key in keys ==> StartsWith(key, ExtrasPrefix) && key[|ExtrasPrefix|..] in sample
  {
    set n | n in names && n in sample && IsExtra(n) :: ExtraKey(n)
  }

  /** The extras of a sample, by name (values before their JSON conversion). */
  function ExtrasOf(sample: IbtDecode.Sample): map<string, IbtDecode.VarValue> {
    ExtrasOver(sample, sample.Keys)
  }

  /**
   * The extras hold exactly the unmapped, non-per-car variables, each under
   * "iracing/" and its own name and with its own value.
   */
  lemma ExtrasSpec(sample: IbtDecode.Sample)
    ensures forall n :: n in sample && IsExtra(n) ==>
      ExtraKey(n) in ExtrasOf(sample) && ExtrasOf(sample)[ExtraKey(n)] == sample[n]
    ensures forall key :: key in ExtrasOf(sample) ==>
      exists n :: n in sample && IsExtra(n) && key == ExtraKey(n)
    ensures forall n :: n in MappedVars || StartsWith(n, "CarIdx") ==> ExtraKey(n) !in ExtrasOf(sample)
  {
    forall n | n in sample && IsExtra(n)
      ensures ExtraKey(n) in ExtrasOf(sample) && ExtrasOf(sample)[ExtraKey(n)] == sample[n]
    {
      assert ExtraKey(n)[|ExtrasPrefix|..] == n;
    }
    forall n | n in MappedVars || StartsWith(n, "CarIdx")
      ensures ExtraKey(n) !in ExtrasOf(sample)
    {
      assert ExtraKey(n)[|ExtrasPrefix|..] == n;
    }
  }

  /** The extras loop of `sample_to_frame`: one insertion per unmapped variable. */
  method Extras(sample: IbtDecode.Sample) returns (extras: map<string, IbtDecode.VarValue>)
    ensures extras == ExtrasOf(sample)
  {
    extras := map[];
    var todo := sample.Keys;
    ghost var done: set<string> := {};
    while todo != {}
      invariant todo + done == sample.Keys && todo !! done
      invariant extras == ExtrasOver(sample, done)
      decreases |todo|
    {
      var name :| name in todo;
      todo := todo - {name};
      ExtrasStep(sample, done, name);
      done := done + {name};
      if name in MappedVars {
        continue;
      }
      if StartsWith(name, "CarIdx") {
        continue;
      }
      extras := extras[ExtraKey(name) := sample[name]];
    }
  }

  /** Taking in one more variable adds its extra, if it has one, and nothing else. */
  lemma ExtrasStep(sample: IbtDecode.Sample, done: set<string>, name: string)
    requires name in sample
    ensures ExtrasOver(sample, done + {name}) ==
      if IsExtra(name) then ExtrasOver(sample, done)[ExtraKey(name) := sample[name]]
      else ExtrasOver(sample, done)
  {
    assert ExtraKey(name)[|ExtrasPrefix|..] == name;
    var before := KeysOver(sample, done);
    var after := KeysOver(sample, done + {name});
    if IsExtra(name) {
      assert after == before + {ExtraKey(name)};
    } else {
      assert after == before;
    }
  }
}
