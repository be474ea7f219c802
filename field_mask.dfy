/**
 * Field masks (which telemetry fields a client wants) and the key selection
 * of the filtered frame output. Output values are left abstract: a frame's
 * key set and what each key carries is modelled, not the JSON text.
 */
module FieldMasks {
  import opened Types
  import opened Text

  /** A set of lowercase field names, or "everything". */
  datatype FieldMask = FieldMask(fields: set<string>, includeAll: bool)

  /** The derived `Default`: no field and not "everything". */
  const DefaultMask := FieldMask({}, false)

  /** `FieldMask::all`. */
  function All(): (m: FieldMask)
    ensures IsAll(m)
    ensures forall f :: Includes(m, f)
  {
    FieldMask({}, true)
  }

  /** `FieldMask::includes`: case-insensitive membership, or everything. */
  predicate Includes(m: FieldMask, field: string) {
    m.includeAll || Lower(field) in m.fields
  }

  /** `FieldMask::is_all`. */
  predicate IsAll(m: FieldMask) {
    m.includeAll
  }

  /** The default mask includes nothing. */
  lemma DefaultIncludesNothing(f: string)
    ensures !Includes(DefaultMask, f) && !IsAll(DefaultMask)
  {
  }

  /** Membership ignores case. */
  lemma IncludesIgnoresCase(m: FieldMask, f: string)
    ensures Includes(m, Lower(f)) == Includes(m, f)
  {
    LowerIdempotent(f);
  }

  /** The name one comma-separated piece contributes: trimmed and lowercased. */
  function PieceName(piece: string): string {
    Lower(Trim(piece))
  }

  /** The set the piece names collect into, empty names dropped. */
  function Collect(pieces: seq<string>): set<string> {
    set i | 0 <= i < |pieces| && PieceName(pieces[i]) != "" :: PieceName(pieces[i])
  }

  /** `FieldMask::from_str`. */
  function FromStr(s: string): (m: FieldMask)
    ensures !IsAll(m)
  {
    FieldMask(Collect(Split(s, ',')), false)
  }

  /** Some piece yields the non-empty name `x`. */
  predicate NamedIn(pieces: seq<string>, x: string) {
    x != "" && exists i :: 0 <= i < |pieces| && PieceName(pieces[i]) == x
  }

  /** A name is collected exactly when some piece yields it and it is not empty. */
  lemma CollectSpec(pieces: seq<string>, x: string)
    ensures x in Collect(pieces) <==> NamedIn(pieces, x)
  {
    if NamedIn(pieces, x) {
      var i :| 0 <= i < |pieces| && PieceName(pieces[i]) == x;
      assert PieceName(pieces[i]) in Collect(pieces);
    }
  }

  /**
   * The fields of `from_str(s)` are exactly the trimmed, lowercased, non-empty
   * comma-separated pieces of `s`.
   */
  lemma FromStrFields(s: string, x: string)
    ensures x in FromStr(s).fields <==>
      NamedIn(Split(s, ','), x)
  {
    var pieces := Split(s, ',');
    assert FromStr(s).fields == Collect(pieces);
    CollectSpec(pieces, x);
  }

  /** Every field of a parsed mask is already lowercase. */
  lemma FromStrLowered(s: string, x: string)
    requires x in FromStr(s).fields
    ensures IsLowered(x)
  {
    var pieces := Split(s, ',');
    CollectSpec(pieces, x);
    var i :| 0 <= i < |pieces| && PieceName(pieces[i]) == x;
    LowerIdempotent(Trim(pieces[i]));
  }

  /** A field named in the list is included whatever its case. */
  lemma FromStrIncludes(s: string, f: string)
    ensures Includes(FromStr(s), f) <==>
      NamedIn(Split(s, ','), Lower(f))
  {
    FromStrFields(s, Lower(f));
  }

  /** `FieldMaskBuilder`: the names added so far. */
  datatype FieldMaskBuilder = FieldMaskBuilder(fields: set<string>)

  const EmptyBuilder := FieldMaskBuilder({})

  /** `FieldMaskBuilder::add`: stores the name lowercased. */
  function Add(b: FieldMaskBuilder, field: string): (r: FieldMaskBuilder)
    ensures Lower(field) in r.fields && b.fields <= r.fields
    ensures forall x :: x in r.fields ==> x in b.fields || x == Lower(field)
  {
    FieldMaskBuilder(b.fields + {Lower(field)})
  }

  /** `FieldMaskBuilder::build`. */
  function Build(b: FieldMaskBuilder): (m: FieldMask)
    ensures !IsAll(m) && m.fields == b.fields
  {
    FieldMask(b.fields, false)
  }

  /** Adding the names one after another. */
  function AddAll(b: FieldMaskBuilder, names: seq<string>): FieldMaskBuilder
    decreases |names|
  {
    if |names| == 0 then b else AddAll(Add(b, names[0]), names[1..])
  }

  /** A built mask includes a field exactly when one of the added names matches it ignoring case. */
  lemma {:induction false} BuiltMaskIncludes(b: FieldMaskBuilder, names: seq<string>, f: string)
    ensures Includes(Build(AddAll(b, names)), f) <==>
      Lower(f) in b.fields || exists i :: 0 <= i < |names| && Lower(names[i]) == Lower(f)
    decreases |names|
  {
    if |names| > 0 {
      BuiltMaskIncludes(Add(b, names[0]), names[1..], f);
      if exists i :: 0 <= i < |names| - 1 && Lower(names[1..][i]) == Lower(f) {
        var i :| 0 <= i < |names| - 1 && Lower(names[1..][i]) == Lower(f);
        assert names[i + 1] == names[1..][i];
      }
      if exists i :: 0 <= i < |names| && Lower(names[i]) == Lower(f) {
        var i :| 0 <= i < |names| && Lower(names[i]) == Lower(f);
        if i > 0 {
          assert names[1..][i - 1] == names[i];
        }
      }
    }
  }

  // ----- filtered output -------------------------------------------------------

  /** The frame's optional fields, in the order the filtered output tests them. */
  const OptionalFields: seq<string> := [
    "position", "velocity", "acceleration", "g_force", "rotation", "angular_velocity",
    "angular_acceleration", "speed", "rpm", "gear", "max_gears", "throttle", "brake",
    "clutch", "steering", "engine_temp", "fuel_level", "fuel_capacity", "wheels",
    "current_lap_time", "last_lap_time", "best_lap_time", "sector_times", "lap_number",
    "race_position", "num_cars", "session_type", "session_time_remaining", "track_temp",
    "air_temp", "track_name", "car_name", "flag", "damage"]

  /**
   * A telemetry frame: its timestamp and game, the optional fields that are
   * present (by name; absent ones are missing from the map) and the extras.
   * `V` is a serialised field value.
   */
  datatype Frame<V> = Frame(timestamp: V, game: string, fields: map<string, V>, extras: map<string, V>)

  /** A key of the output object: the two fixed ones, an optional field's name, or extras. */
  datatype Key = Timestamp | Game | Field(name: string) | Extras

  /** What an output key carries. */
  datatype Out<V> = Null | Value(v: V) | Text(s: string) | Entries(m: map<string, V>)

  /** The two keys every output has. */
  function Base<V>(frame: Frame<V>): map<Key, Out<V>> {
    map[Timestamp := Value(frame.timestamp), Game := Text(frame.game)]
  }

  /**
   * The listed fields that are present and masked in, inserted one after
   * another in list order.
   */
  function Picked<V>(frame: Frame<V>, mask: FieldMask, names: seq<string>): (p: map<Key, Out<V>>)
    ensures forall k :: k in p ==> k.Field?
    decreases |names|
  {
    if |names| == 0 then map[]
    else
      var before := Picked(frame, mask, names[..|names| - 1]);
      var f := names[|names| - 1];
      if Includes(mask, f) && f in frame.fields then before[Field(f) := Value(frame.fields[f])] else before
  }

  /** The output under a mask that is not "all", for a list of optional field names. */
  function FilteredOver<V>(frame: Frame<V>, mask: FieldMask, names: seq<string>): map<Key, Out<V>> {
    var picked := Base(frame) + Picked(frame, mask, names);
    if Includes(mask, "extras") && |frame.extras| > 0 then picked[Extras := Entries(frame.extras)] else picked
  }

  /** The derived serialisation: every field, absent ones as null, and the extras even when empty. */
  function FullOver<V>(frame: Frame<V>, names: seq<string>): map<Key, Out<V>> {
    Base(frame)
      + (map k | k in NameKeys(names) :: if k.name in frame.fields then Value(frame.fields[k.name]) else Null)
      + map[Extras := Entries(frame.extras)]
  }

  function NameKeys(names: seq<string>): (keys: set<Key>)
    ensures forall k :: k in keys ==> k.Field?
  {
    set f | f in names :: Field(f)
  }

  /** The output `to_json_filtered` serialises. */
  function Selected<V>(frame: Frame<V>, mask: Option<FieldMask>): map<Key, Out<V>> {
    if mask.None? || IsAll(mask.value) then FullOver(frame, OptionalFields)
    else FilteredOver(frame, mask.value, OptionalFields)
  }

  /**
   * The keys of a filtered output: timestamp and game always; an optional field
   * only when masked in and present; extras only when masked in and non-empty.
   */
  lemma FilteredFixedKeys<V>(frame: Frame<V>, mask: FieldMask, names: seq<string>)
    ensures var out := FilteredOver(frame, mask, names);
      && Timestamp in out && out[Timestamp] == Value(frame.timestamp)
      && Game in out && out[Game] == Text(frame.game)
  {
    var picked := Base(frame) + Picked(frame, mask, names);
    assert Timestamp !in Picked(frame, mask, names) && Game !in Picked(frame, mask, names);
    assert picked[Timestamp] == Value(frame.timestamp) && picked[Game] == Text(frame.game);
  }

  /** Extras appear only when masked in and not empty. */
  lemma FilteredExtras<V>(frame: Frame<V>, mask: FieldMask, names: seq<string>)
    ensures Extras in FilteredOver(frame, mask, names) <==> Includes(mask, "extras") && |frame.extras| > 0
    ensures Extras in FilteredOver(frame, mask, names) ==> FilteredOver(frame, mask, names)[Extras] == Entries(frame.extras)
  {
  }

  /** A listed field is picked exactly when it is masked in and present, with its own value. */
  lemma {:induction false} PickedField<V>(frame: Frame<V>, mask: FieldMask, names: seq<string>, f: string)
    ensures Field(f) in Picked(frame, mask, names) <==> f in names && Includes(mask, f) && f in frame.fields
    ensures Field(f) in Picked(frame, mask, names) ==> Picked(frame, mask, names)[Field(f)] == Value(frame.fields[f])
    decreases |names|
  {
    if |names| > 0 {
      var init := names[..|names| - 1];
      PickedField(frame, mask, init, f);
      assert names == init + [names[|names| - 1]];
      assert f in names <==> f in init || f == names[|names| - 1];
    }
  }

  /** An optional field appears exactly when it is masked in and present, with its own value. */
  lemma FilteredField<V>(frame: Frame<V>, mask: FieldMask, names: seq<string>, f: string)
    ensures Field(f) in FilteredOver(frame, mask, names) <==> f in names && Includes(mask, f) && f in frame.fields
    ensures Field(f) in FilteredOver(frame, mask, names) ==> FilteredOver(frame, mask, names)[Field(f)] == Value(frame.fields[f])
  {
    PickedField(frame, mask, names, f);
    assert Field(f) !in Base(frame);
  }

  /** Under no mask or an all-mask every field is emitted, absent ones as null. */
  lemma FullKeys<V>(frame: Frame<V>, names: seq<string>, k: Key)
    ensures k in FullOver(frame, names) <==>
      k == Timestamp || k == Game || k == Extras || (k.Field? && k.name in names)
    ensures k.Field? && k.name in names ==>
      FullOver(frame, names)[k] == (if k.name in frame.fields then Value(frame.fields[k.name]) else Null)
  {
    if k.Field? && k.name in names {
      assert k in NameKeys(names);
    }
  }

  /** The conditional insertions for the optional fields, in order. */
  method PickFields<V>(frame: Frame<V>, mask: FieldMask, names: seq<string>) returns (out: map<Key, Out<V>>)
    ensures out == Base(frame) + Picked(frame, mask, names)
  {
    out := map[];
    out := out[Timestamp := Value(frame.timestamp)];
    out := out[Game := Text(frame.game)];
    for i := 0 to |names|
      invariant out == Base(frame) + Picked(frame, mask, names[..i])
    {
      var f := names[i];
      assert names[..i + 1][..i] == names[..i];
      if Includes(mask, f) && f in frame.fields {
        out := out[Field(f) := Value(frame.fields[f])];
      }
    }
    assert names[..|names|] == names;
  }

  /** The filtered branch: the fixed keys, the picked fields, then the extras. */
  method Filter<V>(frame: Frame<V>, mask: FieldMask, names: seq<string>) returns (out: map<Key, Out<V>>)
    ensures out == FilteredOver(frame, mask, names)
  {
    out := PickFields(frame, mask, names);
    if Includes(mask, "extras") && |frame.extras| > 0 {
      out := out[Extras := Entries(frame.extras)];
    }
  }

  /**
   * `TelemetryFrame::to_json_filtered`: the full frame when there is no mask or
   * an all-mask, otherwise timestamp, game, then one conditional insertion per
   * optional field and finally the extras.
   */
  method ToJsonFiltered<V>(frame: Frame<V>, mask: Option<FieldMask>) returns (out: map<Key, Out<V>>)
    ensures out == Selected(frame, mask)
  {
    if mask.None? || IsAll(mask.value) {
      return FullOver(frame, OptionalFields);
    }
    out := Filter(frame, mask.value, OptionalFields);
  }
}
