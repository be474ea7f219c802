/**
 * The adapter manager's two periodic steps: the detection cycle, which starts
 * at most one adapter per cycle for the game that is detected and stops the
 * active one when its game is gone, and the frame read, which forwards the running adapter's frame unless a replay is playing.
 * An adapter is a record of the answers its `detect`, `start`, `stop` and
 * `read_frame` would give in this cycle.
 */
module Manager {
  import opened Types

  /** What `read_frame` yields: a frame (by its sequence number), no data yet, or an error. */
  datatype ReadOutcome = Delivered(frame: nat) | NoData | ReadFailed

  /**
   * An adapter: its key, whether its game is detected, whether it is running,
   * whether a `start` or a `stop` would succeed, and what a read would yield.
   */
  datatype Adapter = Adapter(key: string, detected: bool, active: bool, startOk: bool, stopOk: bool, next: ReadOutcome)

  /** The adapter keys that do not start by themselves when the server starts. */
  const InitiallyDisabled: set<string> := {"demo"}

  /** `iter_mut().find(|a| a.key() == key)`: the first adapter with that key. */
  function Find(adapters: seq<Adapter>, key: string): (r: Option<nat>)
    ensures r.Some? ==> r.value < |adapters| && adapters[r.value].key == key
    ensures r.Some? ==> forall j :: 0 <= j < r.value ==> adapters[j].key != key
    ensures r.None? ==> forall j :: 0 <= j < |adapters| ==> adapters[j].key != key
  {
    if |adapters| == 0 then None
    else if adapters[0].key == key then Some(0)
    else match Find(adapters[1..], key)
      case None => None
      case Some(i) => Some(i + 1)
  }

  /** An adapter the search tries to start: not disabled, its game detected, not running. */
  predicate Eligible(a: Adapter, disabled: set<string>) {
    a.key !in disabled && a.detected && !a.active
  }

  /** An adapter the search starts: eligible, and its `start` succeeds. */
  predicate Starts(a: Adapter, disabled: set<string>) {
    Eligible(a, disabled) && a.startOk
  }

  /** The first adapter that starts, in list order. */
  function FirstStarting(adapters: seq<Adapter>, disabled: set<string>): (r: Option<nat>)
    ensures r.Some? ==> r.value < |adapters| && Starts(adapters[r.value], disabled)
    ensures r.Some? ==> forall j :: 0 <= j < r.value ==> !Starts(adapters[j], disabled)
    ensures r.None? ==> forall j :: 0 <= j < |adapters| ==> !Starts(adapters[j], disabled)
  {
    if |adapters| == 0 then None
    else if Starts(adapters[0], disabled) then Some(0)
    else match FirstStarting(adapters[1..], disabled)
      case None => None
      case Some(i) => Some(i + 1)
  }

  /** The adapters and the active key. */
  datatype Registry = Registry(adapters: seq<Adapter>, active: Option<string>)

  /** The adapter the active key names, when it names one. */
  function ActiveIndex(r: Registry): Option<nat> {
    if r.active.None? then None else Find(r.adapters, r.active.value)
  }

  /** An adapter after `stop`: no longer running, unless the stop fails. */
  function AfterStop(a: Adapter): Adapter {
    if a.stopOk then a.(active := false) else a
  }

  /**
   * `detection_cycle` without its rate limit: the registry afterwards and
   * whether the change is to be broadcast.
   */
  function Cycle(r: Registry, disabled: set<string>): (Registry, bool) {
    match ActiveIndex(r)
    case Some(i) =>
      if r.adapters[i].detected then (r, false)
      else (Registry(r.adapters[i := AfterStop(r.adapters[i])], None), true)
    case None =>
      match FirstStarting(r.adapters, disabled)
      case Some(j) => (Registry(r.adapters[j := r.adapters[j].(active := true)], Some(r.adapters[j].key)), true)
      case None => (r, false)
  }

  /** Adapter `i` was started: not running before, running after. */
  predicate StartedAt(before: seq<Adapter>, after: seq<Adapter>, i: int) {
    0 <= i < |before| && i < |after| && !before[i].active && after[i].active
  }

  /** The cycle keeps the list's length, keys, detection and outcomes; only running flags change. */
  lemma CycleKeepsAdapters(r: Registry, disabled: set<string>, i: nat)
    requires i < |r.adapters|
    ensures |Cycle(r, disabled).0.adapters| == |r.adapters|
    ensures Cycle(r, disabled).0.adapters[i] == r.adapters[i].(active := Cycle(r, disabled).0.adapters[i].active)
  {
  }

  /** An active adapter whose game is still detected: nothing changes and nothing starts. */
  lemma StillDetectedChangesNothing(r: Registry, disabled: set<string>)
    requires ActiveIndex(r).Some? && r.adapters[ActiveIndex(r).value].detected
    ensures Cycle(r, disabled) == (r, false)
  {
  }

  /**
   * An active adapter whose game is gone is stopped and the key cleared, even
   * when the stop fails; no adapter starts in that cycle.
   */
  lemma LostGameStops(r: Registry, disabled: set<string>)
    requires ActiveIndex(r).Some? && !r.adapters[ActiveIndex(r).value].detected
    ensures var (after, changed) := Cycle(r, disabled);
      && changed && after.active.None?
      && (forall i :: 0 <= i < |after.adapters| ==> !StartedAt(r.adapters, after.adapters, i))
      && (forall i :: 0 <= i < |after.adapters| && i != ActiveIndex(r).value ==> after.adapters[i] == r.adapters[i])
      && (r.adapters[ActiveIndex(r).value].stopOk ==> !after.adapters[ActiveIndex(r).value].active)
  {
  }

  /**
   * With no active adapter (or a key naming none), the first adapter in list
   * order that is not disabled, detected, not running and starts becomes the
   * active one and nothing else changes; when none starts nothing changes,
   * the key included.
   */
  lemma SearchStartsFirst(r: Registry, disabled: set<string>)
    requires ActiveIndex(r).None?
    ensures var (after, changed) := Cycle(r, disabled);
      match FirstStarting(r.adapters, disabled)
      case Some(j) =>
        && changed && after.active == Some(r.adapters[j].key)
        && StartedAt(r.adapters, after.adapters, j)
        && (forall i :: 0 <= i < j ==> !Starts(r.adapters[i], disabled))
        && (forall i :: 0 <= i < |after.adapters| && i != j ==> after.adapters[i] == r.adapters[i])
      case None =>
        && !changed && after == r
        && (forall i :: 0 <= i < |r.adapters| ==> !Starts(r.adapters[i], disabled))
  {
  }

  /** At most one adapter is started per cycle, and it is never a disabled one. */
  lemma AtMostOneStarted(r: Registry, disabled: set<string>, i: int, k: int)
    requires StartedAt(r.adapters, Cycle(r, disabled).0.adapters, i)
    requires StartedAt(r.adapters, Cycle(r, disabled).0.adapters, k)
    ensures i == k
    ensures r.adapters[i].key !in disabled
    ensures Cycle(r, disabled).0.active == Some(r.adapters[i].key)
  {
  }

  /** Adapter keys are distinct, as the fixed list of registered adapters has them. */
  predicate KeysDistinct(adapters: seq<Adapter>) {
    forall i, j :: 0 <= i < j < |adapters| ==> adapters[i].key != adapters[j].key
  }

  /** The only adapter running, if any, is the one the active key names. */
  predicate RunsAlone(r: Registry) {
    forall i :: 0 <= i < |r.adapters| && r.adapters[i].active ==> ActiveIndex(r) == Some(i)
  }

  /**
   * While every stop succeeds, the cycle keeps at most one adapter running:
   * the one the active key names.
   */
  lemma CycleKeepsOneRunning(r: Registry, disabled: set<string>)
    requires KeysDistinct(r.adapters) && RunsAlone(r)
    requires ActiveIndex(r).Some? ==> r.adapters[ActiveIndex(r).value].stopOk
    ensures RunsAlone(Cycle(r, disabled).0)
  {
    var after := Cycle(r, disabled).0;
    match ActiveIndex(r)
    case Some(i) =>
      if !r.adapters[i].detected {
        assert forall k :: 0 <= k < |after.adapters| ==> !after.adapters[k].active;
      }
    case None =>
      match FirstStarting(r.adapters, disabled)
      case Some(j) =>
        var key := r.adapters[j].key;
        assert after.adapters[j].key == key;
        assert forall k :: 0 <= k < |after.adapters| && k != j ==> after.adapters[k].key != key;
      case None =>
  }

  /**
   * A failed stop leaves two adapters running: the lost game's adapter keeps
   * running with the key cleared, and the next cycle starts another.
   */
  lemma FailedStopLeavesTwoRunning()
    ensures var a := Adapter("a", false, true, false, false, NoData);
      var b := Adapter("b", true, false, true, true, NoData);
      var start := Registry([a, b], Some("a"));
      var twice := Cycle(Cycle(start, {}).0, {}).0;
      && KeysDistinct(start.adapters) && RunsAlone(start)
      && twice.adapters[0].active && twice.adapters[1].active
  {
    var a := Adapter("a", false, true, false, false, NoData);
    var b := Adapter("b", true, false, true, true, NoData);
    var start := Registry([a, b], Some("a"));
    assert ActiveIndex(start) == Some(0);
    var once := Cycle(start, {}).0;
    assert once == Registry([a, b], None);
    assert !Starts(once.adapters[0], {}) && Starts(once.adapters[1], {});
    assert FirstStarting(once.adapters, {}) == Some(1);
  }

  /** An adapter whose start would fail stays as it is and the search goes on past it. */
  lemma FailedStartSkipped(r: Registry, disabled: set<string>, i: nat)
    requires ActiveIndex(r).None? && i < |r.adapters|
    requires Eligible(r.adapters[i], disabled) && !r.adapters[i].startOk
    ensures Cycle(r, disabled).0.adapters[i] == r.adapters[i]
    ensures Cycle(r, disabled).0.active == r.active || exists j :: 0 <= j < |r.adapters| && j != i && Cycle(r, disabled).0.active == Some(r.adapters[j].key) && Starts(r.adapters[j], disabled)
  {
  }

  /** A key that names no adapter stays when nothing starts. */
  lemma StaleKeyKept(r: Registry, disabled: set<string>)
    requires r.active.Some? && Find(r.adapters, r.active.value).None?
    requires FirstStarting(r.adapters, disabled).None?
    ensures Cycle(r, disabled) == (r, false)
  {
  }

  /** The adapter `frame_read_cycle` reads from: none during a replay or without an active key. */
  function ReadTarget(replayPresent: bool, r: Registry): (t: Option<nat>)
    ensures replayPresent || r.active.None? ==> t.None?
    ensures t.Some? ==> t.value < |r.adapters| && r.active == Some(r.adapters[t.value].key)
    ensures !replayPresent && r.active.Some? ==> t == Find(r.adapters, r.active.value)
  {
    if replayPresent then None else ActiveIndex(r)
  }

  /** The frame that read broadcasts, if any. */
  function Broadcast(replayPresent: bool, r: Registry): (sent: Option<nat>)
    ensures sent.Some? ==> exists i :: ReadTarget(replayPresent, r) == Some(i) && r.adapters[i].next == Delivered(sent.value)
    ensures replayPresent || r.active.None? ==> sent.None?
    ensures ReadTarget(replayPresent, r).Some? && r.adapters[ReadTarget(replayPresent, r).value].next.Delivered? ==>
      sent == Some(r.adapters[ReadTarget(replayPresent, r).value].next.frame)
  {
    match ReadTarget(replayPresent, r)
    case None => None
    case Some(i) => if r.adapters[i].next.Delivered? then Some(r.adapters[i].next.frame) else None
  }

  /** The adapter list, the active key and the disabled keys of the server state. */
  class AdapterManager {
    var adapters: seq<Adapter>
    var activeAdapter: Option<string>
    var disabledAdapters: set<string>

    function State(): Registry
      reads this
    {
      Registry(adapters, activeAdapter)
    }

    /** The state after registering the adapters: nothing active, `demo` disabled. */
    constructor (registered: seq<Adapter>)
      ensures adapters == registered && activeAdapter.None? && disabledAdapters == InitiallyDisabled
    {
      adapters := registered;
      activeAdapter := None;
      disabledAdapters := InitiallyDisabled;
    }

    /** `detection_cycle`, proved to take one `Cycle` step. */
    method DetectionCycle() returns (changed: bool)
      modifies this
      ensures (State(), changed) == Cycle(old(State()), old(disabledAdapters))
      ensures disabledAdapters == old(disabledAdapters)
    {
      changed := false;
      if activeAdapter.Some? {
        var found := FindAdapter(adapters, activeAdapter.value);
        if found.Some? {
          var i := found.value;
          if !adapters[i].detected {
            adapters := adapters[i := AfterStop(adapters[i])];
            activeAdapter := None;
            changed := true;
          }
          return;
        }
      }
      var i := 0;
      while i < |adapters|
        invariant 0 <= i <= |adapters|
        invariant adapters == old(adapters) && activeAdapter == old(activeAdapter) && !changed
        invariant forall j :: 0 <= j < i ==> !Starts(adapters[j], disabledAdapters)
      {
        var a := adapters[i];
        if a.key in disabledAdapters {
          i := i + 1;
          continue;
        }
        if a.detected && !a.active && a.startOk {
          adapters := adapters[i := a.(active := true)];
          activeAdapter := Some(a.key);
          changed := true;
          break;
        }
        i := i + 1;
      }
    }

    /** `frame_read_cycle`: the adapter read from and the frame broadcast; nothing is changed. */
    method FrameReadCycle(replayPresent: bool) returns (read: Option<nat>, sent: Option<nat>)
      ensures read == ReadTarget(replayPresent, State())
      ensures sent == Broadcast(replayPresent, State())
    {
      if replayPresent {
        return None, None;
      }
      if activeAdapter.None? {
        return None, None;
      }
      read := FindAdapter(adapters, activeAdapter.value);
      sent := None;
      if read.Some? {
        match adapters[read.value].next {
          case Delivered(frame) => sent := Some(frame);
          case NoData =>
          case ReadFailed =>
        }
      }
    }
  }

  /** The scan behind `iter_mut().find`. */
  method FindAdapter(adapters: seq<Adapter>, key: string) returns (r: Option<nat>)
    ensures r == Find(adapters, key)
  {
    var i := 0;
    while i < |adapters|
      invariant 0 <= i <= |adapters|
      invariant forall j :: 0 <= j < i ==> adapters[j].key != key
    {
      if adapters[i].key == key {
        return Some(i);
      }
      i := i + 1;
    }
    r := None;
  }

  /** Right after start-up the demo adapter is never started, whatever the adapters report. */
  lemma DemoNotStartedInitially(adapters: seq<Adapter>, i: int)
    requires 0 <= i < |adapters| && adapters[i].key == "demo"
    ensures !StartedAt(adapters, Cycle(Registry(adapters, None), InitiallyDisabled).0.adapters, i)
  {
    if StartedAt(adapters, Cycle(Registry(adapters, None), InitiallyDisabled).0.adapters, i) {
      AtMostOneStarted(Registry(adapters, None), InitiallyDisabled, i, i);
    }
  }
}
