/**
 * The session-info block of an .ibt file: a line-based scan of its YAML text
 * for a handful of keys, and the classification of the session type string.
 */
module IbtSession {
  import opened Types
  import opened Text

  /** The keys the scan looks for, in the order the scan tests them. */
  datatype Key =
    | TrackName | TrackDisplayName | TrackConfigName | TrackLength
    | CarScreenName | UserName | DriverCarIdx | SessionType

  function KeyText(k: Key): string {
    match k
    case TrackName => "TrackName:"
    case TrackDisplayName => "TrackDisplayName:"
    case TrackConfigName => "TrackConfigName:"
    case TrackLength => "TrackLength:"
    case CarScreenName => "CarScreenName:"
    case UserName => "UserName:"
    case DriverCarIdx => "DriverCarIdx:"
    case SessionType => "SessionType:"
  }

  /** Keys whose last occurrence wins. */
  predicate LastWins(k: Key) {
    k == TrackName || k == TrackDisplayName || k == TrackConfigName || k == TrackLength
  }

  /** Keys whose first non-empty occurrence wins. */
  predicate FirstWins(k: Key) {
    k == CarScreenName || k == UserName || k == SessionType
  }

  datatype SessionInfo = SessionInfo(
    trackName: string,
    trackDisplayName: string,
    trackConfigName: string,
    trackLength: string,
    carName: string,
    carScreenName: string,
    driverName: string,
    driverCarIdx: int,
    sessionType: string)

  /** The derived `Default`: empty strings and index 0. */
  const Empty := SessionInfo("", "", "", "", "", "", "", 0, "")

  /** The string field a textual key fills. */
  function Field(info: SessionInfo, k: Key): string
    requires k != DriverCarIdx
  {
    match k
    case TrackName => info.trackName
    case TrackDisplayName => info.trackDisplayName
    case TrackConfigName => info.trackConfigName
    case TrackLength => info.trackLength
    case CarScreenName => info.carScreenName
    case UserName => info.driverName
    case SessionType => info.sessionType
  }

  /**
   * `try_extract_yaml_value`: the trimmed remainder of a line that starts with
   * `key`, or None.
   */
  function ExtractValue(line: string, key: string): (r: Option<string>)
    ensures r.Some? <==> StartsWith(line, key)
    ensures r.Some? ==> r.value == Trim(line[|key|..])
  {
    match StripPrefix(line, key)
    case Some(rest) => Some(Trim(rest))
    case None => None
  }

  /** The order in which the scan tests the keys on each line. */
  const ScanOrder: seq<Key> := [
    TrackName, TrackDisplayName, TrackConfigName, TrackLength,
    CarScreenName, UserName, DriverCarIdx, SessionType]

  /** The first of `keys` whose prefix the line carries, with its value. */
  function FirstKey(t: string, keys: seq<Key>): (r: Option<(Key, string)>)
    ensures r.Some? ==> r.value.0 in keys && ExtractValue(t, KeyText(r.value.0)) == Some(r.value.1)
    ensures r.None? ==> forall k :: k in keys ==> ExtractValue(t, KeyText(k)).None?
  {
    if |keys| == 0 then None
    else
      match ExtractValue(t, KeyText(keys[0]))
      case Some(v) => Some((keys[0], v))
      case None => FirstKey(t, keys[1..])
  }

  /** The first key, in scan order, whose prefix the trimmed line carries, with its value. */
  function MatchedKey(line: string): (r: Option<(Key, string)>)
    ensures r.Some? ==> ExtractValue(Trim(line), KeyText(r.value.0)) == Some(r.value.1)
  {
    FirstKey(Trim(line), ScanOrder)
  }

  /** A line that matches no key carries none of the keys. */
  lemma UnmatchedLine(line: string, k: Key)
    requires MatchedKey(line).None?
    ensures ExtractValue(Trim(line), KeyText(k)).None?
  {
    var t := Trim(line);
    assert FirstKey(t, ScanOrder).None?;
    assert k in ScanOrder by {
      match k
      case TrackName => assert ScanOrder[0] == k;
      case TrackDisplayName => assert ScanOrder[1] == k;
      case TrackConfigName => assert ScanOrder[2] == k;
      case TrackLength => assert ScanOrder[3] == k;
      case CarScreenName => assert ScanOrder[4] == k;
      case UserName => assert ScanOrder[5] == k;
      case DriverCarIdx => assert ScanOrder[6] == k;
      case SessionType => assert ScanOrder[7] == k;
    }
  }

  /** What one line carries: the key it starts with and that key's value, if any. */
  type Match = Option<(Key, string)>

  /** One iteration of the scan loop of `from_yaml`, given what the line carries. */
  function ApplyMatch(info: SessionInfo, m: Match): SessionInfo {
    match m
    case None => info
    case Some((k, v)) =>
      match k
      case TrackName => info.(trackName := v)
      case TrackDisplayName => info.(trackDisplayName := v)
      case TrackConfigName => info.(trackConfigName := v)
      case TrackLength => info.(trackLength := v)
      case CarScreenName => if info.carScreenName == "" then info.(carScreenName := v) else info
      case UserName => if info.driverName == "" then info.(driverName := v) else info
      case DriverCarIdx =>
        (match ParseI32(v)
         case Some(idx) => info.(driverCarIdx := idx)
         case None => info)
      case SessionType => if info.sessionType == "" then info.(sessionType := v) else info
  }

  /** What each line carries, in order. */
  function Matches(lines: seq<string>): (ms: seq<Match>)
    ensures |ms| == |lines|
    ensures forall j :: 0 <= j < |lines| ==> ms[j] == MatchedKey(lines[j])
  {
    seq(|lines|, j requires 0 <= j < |lines| => MatchedKey(lines[j]))
  }

  /** The fields after applying the lines' matches in order to the default. */
  function ScanMatches(ms: seq<Match>): SessionInfo {
    if |ms| == 0 then Empty else ApplyMatch(ScanMatches(ms[..|ms| - 1]), ms[|ms| - 1])
  }

  /** The post-processing of `from_yaml`: display name fallback and car name. */
  function Finish(info: SessionInfo): (r: SessionInfo)
    ensures r.carName == info.carScreenName
    ensures r.trackDisplayName == (if info.trackDisplayName == "" then info.trackName else info.trackDisplayName)
    ensures r == info.(carName := r.carName, trackDisplayName := r.trackDisplayName)
  {
    var withDisplay := if info.trackDisplayName == "" then info.(trackDisplayName := info.trackName) else info;
    withDisplay.(carName := withDisplay.carScreenName)
  }

  /** The lines of the text; a trailing empty piece or '\r' does not change the scan (see `Trim`). */
  function Lines(yaml: string): seq<string> {
    Split(yaml, '\n')
  }

  /** `IbtSessionInfo::from_yaml`, as a specification. It never fails. */
  function FromYamlSpec(yaml: string): SessionInfo {
    Finish(ScanMatches(Matches(Lines(yaml))))
  }

  /** `IbtSessionInfo::from_yaml`: the scan loop over the lines, then the post-processing. */
  method FromYaml(yaml: string) returns (info: SessionInfo)
    ensures info == FromYamlSpec(yaml)
  {
    var lines := Lines(yaml);
    ghost var ms := Matches(lines);
    info := Empty;
    for i := 0 to |lines|
      invariant info == ScanMatches(ms[..i])
    {
      assert ms[..i + 1][..i] == ms[..i];
      var m := MatchedKey(lines[i]);
      assert m == ms[i];
      match m {
        case None =>
        case Some((k, v)) =>
          match k {
            case TrackName => info := info.(trackName := v);
            case TrackDisplayName => info := info.(trackDisplayName := v);
            case TrackConfigName => info := info.(trackConfigName := v);
            case TrackLength => info := info.(trackLength := v);
            case CarScreenName =>
              if info.carScreenName == "" {
                info := info.(carScreenName := v);
              }
            case UserName =>
              if info.driverName == "" {
                info := info.(driverName := v);
              }
            case DriverCarIdx =>
              var idx := ParseI32(v);
              if idx.Some? {
                info := info.(driverCarIdx := idx.value);
              }
            case SessionType =>
              if info.sessionType == "" {
                info := info.(sessionType := v);
              }
          }
      }
    }
    assert ms[..|lines|] == ms;
    if info.trackDisplayName == "" {
      info := info.(trackDisplayName := info.trackName);
    }
    info := info.(carName := info.carScreenName);
  }

  // ----- precedence ----------------------------------------------------------
  // Stated over the lines' matches `ms` (`ms[j]` is `MatchedKey` of line j).

  /** Line `j` carries key `k`. */
  predicate HasKey(ms: seq<Match>, j: int, k: Key)
    requires 0 <= j < |ms|
  {
    ms[j].Some? && ms[j].value.0 == k
  }

  /** A line sets only the field of the key it carries. */
  lemma ApplyOther(info: SessionInfo, m: Match, k: Key)
    requires k != DriverCarIdx
    requires m.None? || m.value.0 != k
    ensures Field(ApplyMatch(info, m), k) == Field(info, k)
  {
  }

  /** Track name, display name, configuration and length: the last occurrence wins. */
  lemma {:induction false} LastOccurrenceWins(ms: seq<Match>, k: Key, i: nat)
    requires LastWins(k) && i < |ms| && HasKey(ms, i, k)
    requires forall j :: i < j < |ms| ==> !HasKey(ms, j, k)
    ensures Field(ScanMatches(ms), k) == ms[i].value.1
  {
    var n := |ms|;
    var init := ms[..n - 1];
    if i < n - 1 {
      forall j | i < j < |init| ensures !HasKey(init, j, k) {
        assert init[j] == ms[j] && !HasKey(ms, j, k);
      }
      assert init[i] == ms[i];
      LastOccurrenceWins(init, k, i);
      assert !HasKey(ms, n - 1, k);
      ApplyOther(ScanMatches(init), ms[n - 1], k);
    }
  }

  /** A key that occurs on no line leaves its field empty. */
  lemma {:induction false} NoOccurrence(ms: seq<Match>, k: Key)
    requires k != DriverCarIdx
    requires forall j :: 0 <= j < |ms| ==> !HasKey(ms, j, k)
    ensures Field(ScanMatches(ms), k) == ""
  {
    var n := |ms|;
    if n > 0 {
      var init := ms[..n - 1];
      forall j | 0 <= j < |init| ensures !HasKey(init, j, k) {
        assert init[j] == ms[j] && !HasKey(ms, j, k);
      }
      NoOccurrence(init, k);
      assert !HasKey(ms, n - 1, k);
      ApplyOther(ScanMatches(init), ms[n - 1], k);
    }
  }

  /**
   * Car screen name, user name and session type: the first occurrence with a
   * non-empty value wins; empty values before it are passed over.
   */
  lemma {:induction false} FirstOccurrenceWins(ms: seq<Match>, k: Key, i: nat)
    requires FirstWins(k) && i < |ms| && HasKey(ms, i, k) && ms[i].value.1 != ""
    requires forall j :: 0 <= j < i ==> HasKey(ms, j, k) ==> ms[j].value.1 == ""
    ensures Field(ScanMatches(ms), k) == ms[i].value.1
  {
    var n := |ms|;
    var init := ms[..n - 1];
    if i < n - 1 {
      assert forall j :: 0 <= j <= i ==> init[j] == ms[j];
      FirstOccurrenceWins(init, k, i);
    } else {
      assert forall j :: 0 <= j < |init| ==> init[j] == ms[j];
      EmptyBefore(init, k);
    }
  }

  /** While every occurrence so far had an empty value, the field is still empty. */
  lemma {:induction false} EmptyBefore(ms: seq<Match>, k: Key)
    requires FirstWins(k)
    requires forall j :: 0 <= j < |ms| ==> HasKey(ms, j, k) ==> ms[j].value.1 == ""
    ensures Field(ScanMatches(ms), k) == ""
  {
    var n := |ms|;
    if n > 0 {
      var init := ms[..n - 1];
      assert forall j :: 0 <= j < |init| ==> init[j] == ms[j];
      EmptyBefore(init, k);
      assert HasKey(ms, n - 1, k) ==> ms[n - 1].value.1 == "";
    }
  }

  /** A DriverCarIdx line whose value is not an i32 changes nothing. */
  lemma NonIntegerIgnored(info: SessionInfo, v: string)
    requires ParseI32(v).None?
    ensures ApplyMatch(info, Some((DriverCarIdx, v))) == info
  {
  }

  /** A DriverCarIdx line whose value parses. */
  predicate HasIndex(ms: seq<Match>, j: int)
    requires 0 <= j < |ms|
  {
    HasKey(ms, j, DriverCarIdx) && ParseI32(ms[j].value.1).Some?
  }

  /** The driver's car index comes from the last DriverCarIdx line that parses. */
  lemma {:induction false} LastIndexWins(ms: seq<Match>, i: nat)
    requires i < |ms| && HasIndex(ms, i)
    requires forall j :: i < j < |ms| ==> !HasIndex(ms, j)
    ensures ScanMatches(ms).driverCarIdx == ParseI32(ms[i].value.1).value
  {
    var n := |ms|;
    var init := ms[..n - 1];
    if i < n - 1 {
      forall j | i < j < |init| ensures !HasIndex(init, j) {
        assert init[j] == ms[j] && !HasIndex(ms, j);
      }
      assert init[i] == ms[i];
      LastIndexWins(init, i);
      assert !HasIndex(ms, n - 1);
    }
  }

  /** Without a parseable DriverCarIdx line the index stays 0. */
  lemma {:induction false} NoIndex(ms: seq<Match>)
    requires forall j :: 0 <= j < |ms| ==> !HasIndex(ms, j)
    ensures ScanMatches(ms).driverCarIdx == 0
  {
    var n := |ms|;
    if n > 0 {
      var init := ms[..n - 1];
      forall j | 0 <= j < |init| ensures !HasIndex(init, j) {
        assert init[j] == ms[j] && !HasIndex(ms, j);
      }
      NoIndex(init);
      assert !HasIndex(ms, n - 1);
    }
  }

  // ----- session type --------------------------------------------------------

  datatype SessionKind = Race | Qualifying | Practice | TimeTrial | Hotlap | Warmup | Other

  /**
   * `parse_session_type`: the lowercased string is tested for substrings in a
   * fixed order; an empty string has no type and any other unmatched one is Other.
   * "qualify" is tested before "qual", but any string containing it contains "qual",
   * so the Qualifying rung is exactly "contains qual".
   */
  function ParseSessionType(s: string): (r: Option<SessionKind>)
    ensures r.None? <==> s == ""
    ensures var st := Lower(s);
      && (Contains(st, "race") ==> r == Some(Race))
      && (!Contains(st, "race") && Contains(st, "qual") ==> r == Some(Qualifying))
      && (!Contains(st, "race") && !Contains(st, "qual") && Contains(st, "practice") ==> r == Some(Practice))
      && ((!Contains(st, "race") && !Contains(st, "qual") && !Contains(st, "practice")
           && (Contains(st, "time trial") || Contains(st, "timetrial"))) ==> r == Some(TimeTrial))
      && ((!Contains(st, "race") && !Contains(st, "qual") && !Contains(st, "practice")
           && !Contains(st, "time trial") && !Contains(st, "timetrial")
           && Contains(st, "hotlap")) ==> r == Some(Hotlap))
      && ((!Contains(st, "race") && !Contains(st, "qual") && !Contains(st, "practice")
           && !Contains(st, "time trial") && !Contains(st, "timetrial") && !Contains(st, "hotlap")
           && (Contains(st, "warmup") || Contains(st, "warm up"))) ==> r == Some(Warmup))
      && ((s != "" && !Contains(st, "race") && !Contains(st, "qual") && !Contains(st, "practice")
           && !Contains(st, "time trial") && !Contains(st, "timetrial") && !Contains(st, "hotlap")
           && !Contains(st, "warmup") && !Contains(st, "warm up")) ==> r == Some(Other))
  {
    var st := Lower(s);
    assert Contains(st, "qualify") ==> Contains(st, "qual") by {
      if Contains(st, "qualify") {
        ContainsPrefix(st, "qualify", "qual");
      }
    }
    if Contains(st, "race") then Some(Race)
    else if Contains(st, "qualify") || Contains(st, "qual") then Some(Qualifying)
    else if Contains(st, "practice") then Some(Practice)
    else if Contains(st, "time trial") || Contains(st, "timetrial") then Some(TimeTrial)
    else if Contains(st, "hotlap") then Some(Hotlap)
    else if Contains(st, "warmup") || Contains(st, "warm up") then Some(Warmup)
    else if st != "" then Some(Other)
    else None
  }

  /** The classification ignores ASCII case. */
  lemma SessionTypeCaseInsensitive(s: string)
    ensures ParseSessionType(Lower(s)) == ParseSessionType(s)
  {
    LowerIdempotent(s);
  }

  /** The session type iRacing records for a solo qualifying run. */
  lemma LoneQualifyIsQualifying()
    ensures ParseSessionType("Lone Qualify") == Some(Qualifying)
  {
    var st := Lower("Lone Qualify");
    assert st == "lone qualify";
    NotContainsWithout(st, "race");
    ContainsAt(st, "qual", 5);
  }

  /** A race session whose name also mentions qualifying is still a race. */
  lemma RaceBeforeQualifying()
    ensures ParseSessionType("Qualifying Race") == Some(Race)
  {
    var st := Lower("Qualifying Race");
    assert st == "qualifying race";
    ContainsAt(st, "race", 11);
  }
}
