# OpenSimTelemetry server core in Dafny

OpenSimTelemetry reads telemetry from racing simulators. It turns each sample into a
`TelemetryFrame` and streams frames to browsers and to configured sinks. It can also replay a
recorded iRacing `.ibt` file through the same stream. This project models five sequential cores
of the Rust server and proves properties about them:

- **the replay cursor** (`ReplayState`): play, pause, seek, speed and advance over a recording of
  `total_frames` records, plus the clamped window behind the paged `frames?start&count` request;
- **the `.ibt` decoder**:
  - variable type tags and element sizes;
  - null-terminated strings;
  - little-endian scalar and array extraction with bounds checks;
  - record-range reads, where record *i* occupies bytes `[i*buf_len, (i+1)*buf_len)` of the
    sample area;
  - the line-based session-info extractor;
  - session-type classification, the track-surface table and the "extras" name filter;
- **field masks**: comma-list parsing, case-insensitive membership, the builder, and which keys
  `to_json_filtered` emits;
- **the API handlers**: the sink registry, the replay control dispatch, and the upload and delete
  checks;
- **the adapter manager**: the detection cycle, which starts at most one adapter per cycle and
  keeps only the active adapter running as long as every stop succeeds, and the gate on frame
  reads.

Layout (one module per file):

| file | module | contents |
|---|---|---|
| `types.dfy` | `Types` | `Option`, `Result`, `Min` |
| `text.dfy` | `Text` | the Rust string operations the core uses: `trim`, ASCII `to_lowercase`, `split`, `starts_with`/`ends_with`/`contains`, `strip_prefix`, `parse::<i32>`, decimal formatting |
| `ibt_decode.dfy` | `IbtDecode` | type tags, byte and integer decoding, scalar/array values, record decoding, range reads |
| `ibt_session.dfy` | `IbtSession` | `IbtSessionInfo::from_yaml`, `parse_session_type` |
| `ibt_frame.dfy` | `IbtFrame` | the track-surface table and the extras filter of `sample_to_frame` |
| `replay.dfy` | `Replay` | the pure `Cursor` step function and the class `ReplayState` proved against it |
| `field_mask.dfy` | `FieldMasks` | `FieldMask`, `FieldMaskBuilder`, the key selection of `to_json_filtered` |
| `api.dfy` | `Api` | class `AppState` with the sink, upload, control and delete handlers |
| `manager.dfy` | `Manager` | the pure `Cycle` step, and class `AdapterManager` with `detection_cycle` and `frame_read_cycle` |

How each kind of code is modelled:

- **Imperative code** is written as Dafny methods with loops:
  - the record loop, the array loops and `read_samples_range`'s bulk read;
  - `from_yaml`'s line loop and the extras loop;
  - `detection_cycle`'s search with `break`;
  - `iter().position`.

  Each method is proved equal to a pure function, and the source's promises are proved about
  that function.
- **Objects whose fields change** are classes. `ReplayState`, the server's sink and replay slots,
  and the adapter registry each have their own.
- **Bytes** are the integers 0..255.
- **Byte offsets** such as `offset + i*size` are written with `Mul`, repeated addition that `IbtDecode.MulIs` proves equal to the product. This keeps the offset proofs linear.
- **Floats** inside a sample are kept as their raw little-endian bit patterns.
- **Speeds and the control value** are Dafny reals.
- **I/O outcomes are parameters.** These are: whether a start, stop or read succeeds, whether the
  temporary file can be written, and what parsing the uploaded file yields.

## Model

| member | source | states |
|---|---|---|
| `IbtDecode.VarTypeFromI32` | ost-adapters/src/ibt_parser.rs:30-40 | success exactly for the codes 0..5, each mapping to the type with that tag; any other code is the "unknown variable type" error carrying the code |
| `IbtDecode.VarTypeTagRoundTrip` | ost-adapters/src/ibt_parser.rs:1128-1136 | decoding a type's own tag yields that type |
| `IbtDecode.ElementSize` | ost-adapters/src/ibt_parser.rs:43-52 | the size is 1 exactly for Char/Bool, 4 exactly for Int/BitField/Float, 8 exactly for Double |
| `IbtDecode.NullTerminated` | ost-adapters/src/ibt_parser.rs:1010-1013 | the result is a prefix of the buffer without a 0 byte, and it ends at a 0 byte or at the end of the buffer |
| `IbtDecode.NullTerminatedPadding` | ost-adapters/src/ibt_parser.rs:1147-1154 | text followed by a 0 byte and any padding reads back as the text |
| `IbtDecode.LeUint` | ost-adapters/src/ibt_parser.rs:1031-1048 | a little-endian decode of n bytes is below 256^n |
| `IbtDecode.LeBytes` | ost-adapters/src/ibt_parser.rs:1031-1048 | the encoding of a value that fits n bytes has exactly n bytes |
| `IbtDecode.LeUintOfLeBytes` | ost-adapters/src/ibt_parser.rs:1188-1202 | decoding the little-endian encoding of a value returns the value |
| `IbtDecode.LeBytesOfLeUint` | ost-adapters/src/ibt_parser.rs:1031-1048 | encoding the decoded value of some bytes returns those bytes |
| `IbtDecode.AsI32` | ost-adapters/src/ibt_parser.rs:1031-1039 | a 32-bit pattern read as two's complement lies in the i32 range |
| `IbtDecode.I32Bits` | ost-adapters/src/ibt_parser.rs:1189-1190 | the two's-complement pattern of an i32 is below 2^32 |
| `IbtDecode.I32RoundTrip` | ost-adapters/src/ibt_parser.rs:1189-1202 | i32 to bit pattern and back, in both directions, is the identity, so an i32 written as 4 LE bytes reads back unchanged |
| `IbtDecode.EncodeScalar` | ost-adapters/src/ibt_parser.rs:1186-1193 | a scalar's encoding has its type's element size |
| `IbtDecode.ScalarFrom` | ost-adapters/src/ibt_parser.rs:1015-1068 | the value read from an element's bytes is a scalar of the requested type |
| `IbtDecode.ReadScalar` | ost-adapters/src/ibt_parser.rs:1015-1068 | None exactly when offset + element size exceeds the buffer; otherwise a scalar of the requested type |
| `IbtDecode.ReadBool` | ost-adapters/src/ibt_parser.rs:1024-1030 | a Bool is read as `byte != 0` |
| `IbtDecode.ReadScalarRoundTrip` | ost-adapters/src/ibt_parser.rs:1184-1211 | any scalar written at an offset, with any bytes around it, reads back as itself |
| `IbtDecode.Words` | ost-adapters/src/ibt_parser.rs:1080-1118 | at most `count` elements, each below 256^size |
| `IbtDecode.MulIs` | ost-adapters/src/ibt_parser.rs:1083-1090 | the offset products `i * size` the model writes as `Mul` are the products |
| `IbtDecode.WordAt` | ost-adapters/src/ibt_parser.rs:1083-1090 | element j of the array lies inside the buffer and is the LE decode of bytes `[offset+j*size, offset+(j+1)*size)` |
| `IbtDecode.WordsMaximal` | ost-adapters/src/ibt_parser.rs:1083-1090 | the kept elements are exactly those that fit: either all `count`, or the next one would overrun the buffer |
| `IbtDecode.WordsSpec` | ost-adapters/src/ibt_parser.rs:1080-1118 | the array holds, in order, every element fully inside the buffer and no other |
| `IbtDecode.WordsAll` | ost-adapters/src/ibt_parser.rs:1080-1118 | when the whole array fits the buffer, all `count` elements are read |
| `IbtDecode.WordsSnoc` | ost-adapters/src/ibt_parser.rs:1083-1090 | one more loop turn appends the next element exactly when it fits |
| `IbtDecode.ReadWords` | ost-adapters/src/ibt_parser.rs:1080-1118 | the element loop computes `Words` |
| `IbtDecode.AsI32s` | ost-adapters/src/ibt_parser.rs:1080-1091 | converting each pattern to an i32 keeps the length |
| `IbtDecode.ArrayValue` | ost-adapters/src/ibt_parser.rs:1070-1121 | Char/Bool arrays are None exactly when offset + count exceeds the buffer; Int/BitField/Float/Double arrays are always Some |
| `IbtDecode.ReadArray` | ost-adapters/src/ibt_parser.rs:1070-1121 | the array reader computes `ArrayValue` |
| `IbtDecode.ArrayElements` | ost-adapters/src/ibt_parser.rs:1092-1117 | a Float/Double array holds, in order, exactly the elements fully inside the buffer, at most `count` of them |
| `IbtDecode.IntArrayElements` | ost-adapters/src/ibt_parser.rs:1080-1091 | an Int/BitField array holds, in order, the i32 of each element fully inside the buffer, at most `count` of them |
| `IbtDecode.VarValueOf` | ost-adapters/src/ibt_parser.rs:435-446 | a variable is decoded exactly when `offset + count*element_size` is within the record |
| `IbtDecode.DecodeVarsKeys` | ost-adapters/src/ibt_parser.rs:434-449 | a name is in the sample exactly when some header of that name fits the record (variables that overrun are skipped) |
| `IbtDecode.DecodeVarsValue` | ost-adapters/src/ibt_parser.rs:434-449 | a name's value is the decode by the last fitting header of that name |
| `IbtDecode.DecodeSample` | ost-adapters/src/ibt_parser.rs:434-450 | the per-record header loop computes `DecodeVars` |
| `IbtDecode.Record` | ost-adapters/src/ibt_parser.rs:432 | a record is `buf_len` bytes long |
| `IbtDecode.ReadableRecord` | ost-adapters/src/ibt_parser.rs:421-432 | each record of a range inside the file is inside the file |
| `IbtDecode.ReadablePrefix` | ost-adapters/src/ibt_parser.rs:421-432 | a prefix of a range inside the file is inside the file |
| `IbtDecode.RangeSamples` | ost-adapters/src/ibt_parser.rs:431-451 | `count` samples, sample i decoded from record `start + i` |
| `IbtDecode.ReadableRecords` | ost-adapters/src/ibt_parser.rs:421-432 | every record index of a readable range is readable alone |
| `IbtDecode.RangeSamplesSnoc` | ost-adapters/src/ibt_parser.rs:431-451 | the samples of i+1 records are those of i records plus the decode of record start+i |
| `IbtDecode.BulkSlice` | ost-adapters/src/ibt_parser.rs:421-433 | slice i of the single bulk read is exactly record start+i |
| `IbtDecode.SamplesRange` | ost-adapters/src/ibt_parser.rs:403-453 | out-of-range error exactly when `start >= record_count`, even for count 0; otherwise a short read or exactly `min(count, record_count - start)` samples |
| `IbtDecode.SamplesRangeContents` | ost-adapters/src/ibt_parser.rs:416-451 | past the range check the read succeeds exactly when the clamped range lies in the file, and sample i is the decode of record start+i |
| `IbtDecode.ReadSamplesRange` | ost-adapters/src/ibt_parser.rs:403-453 | the bulk read and per-slice decode compute `SamplesRange` |
| `IbtDecode.SampleAt` | ost-adapters/src/ibt_parser.rs:457-497 | out-of-range error exactly when `index >= record_count` |
| `IbtDecode.ReadSample` | ost-adapters/src/ibt_parser.rs:457-497 | the single-record read computes `SampleAt` |
| `IbtDecode.SampleAtMatchesRange` | ost-adapters/src/ibt_parser.rs:403-497 | reading record i alone and reading the range (i, 1) succeed together and yield the same sample |
| `IbtSession.ExtractValue` | ost-adapters/src/ibt_parser.rs:225-227 | Some exactly when the line starts with the key; the value is the rest of the line trimmed |
| `IbtSession.FirstKey` | ost-adapters/src/ibt_parser.rs:186-213 | the key found is one of those tested and its value is what extracting it yields; when none is found, none of the tested keys is a prefix of the line |
| `IbtSession.MatchedKey` | ost-adapters/src/ibt_parser.rs:186-213 | a matched key's value is what extracting that key from the trimmed line yields |
| `IbtSession.UnmatchedLine` | ost-adapters/src/ibt_parser.rs:186-213 | a line that matches no key carries the prefix of none of the eight keys |
| `IbtSession.Matches` | ost-adapters/src/ibt_parser.rs:185-187 | one match per line, line by line |
| `IbtSession.Finish` | ost-adapters/src/ibt_parser.rs:215-219 | `car_name` becomes `car_screen_name`; an empty display name falls back to `track_name`; nothing else changes |
| `IbtSession.FromYaml` | ost-adapters/src/ibt_parser.rs:182-222 | the line loop computes the scan of all lines followed by `Finish` |
| `IbtSession.ApplyOther` | ost-adapters/src/ibt_parser.rs:188-213 | a line for another key leaves a field as it was |
| `IbtSession.LastOccurrenceWins` | ost-adapters/src/ibt_parser.rs:188-195 | for TrackName, TrackDisplayName, TrackConfigName and TrackLength the last occurrence's value is kept |
| `IbtSession.NoOccurrence` | ost-adapters/src/ibt_parser.rs:183 | a key that never occurs leaves its field empty |
| `IbtSession.FirstOccurrenceWins` | ost-adapters/src/ibt_parser.rs:196-212 | for CarScreenName, UserName and SessionType the first non-empty occurrence is kept |
| `IbtSession.EmptyBefore` | ost-adapters/src/ibt_parser.rs:196-212 | while only empty values have occurred, the first-wins field stays empty |
| `IbtSession.NonIntegerIgnored` | ost-adapters/src/ibt_parser.rs:204-208 | a DriverCarIdx value that is not an i32 changes nothing |
| `IbtSession.LastIndexWins` | ost-adapters/src/ibt_parser.rs:204-208 | the driver index is the value of the last DriverCarIdx line that parses |
| `IbtSession.NoIndex` | ost-adapters/src/ibt_parser.rs:183 | without a parsing DriverCarIdx line the driver index is 0 |
| `IbtSession.ParseSessionType` | ost-adapters/src/ibt_parser.rs:984-1003 | None exactly for the empty string; on the lowercased string, each rung in order (race, qual, practice, time trial/timetrial, hotlap, warmup/warm up) gives its kind when every earlier rung fails, and a non-empty string matching none is Other |
| `IbtSession.SessionTypeCaseInsensitive` | ost-adapters/src/ibt_parser.rs:985 | classification depends only on the lowercased string |
| `IbtSession.LoneQualifyIsQualifying` | ost-adapters/src/ibt_parser.rs:988-989 | "Lone Qualify" is Qualifying |
| `IbtSession.RaceBeforeQualifying` | ost-adapters/src/ibt_parser.rs:986-989 | "race" is tested before "qual": "Qualifying Race" is Race |
| `IbtFrame.TrackSurfaceOf` | ost-adapters/src/ibt_parser.rs:694-709 | each of the fourteen surfaces exactly for its codes: NotInWorld -1, Undefined 0, Asphalt 1..4, Concrete 6-7, RacingDirt 8-9, Paint 10-11, Rumble 12..15, Grass 16..19, Dirt 20..23, Sand 24, Gravel 25..28, Grasscrete 29, Astroturf 30, and Unknown for 5 and everything outside -1..30 |
| `IbtFrame.TrackSurfaceCodes` | ost-adapters/src/ibt_parser.rs:694-709 | every surface is produced by some code in -1..30 |
| `IbtFrame.ExtraKeyInjective` | ost-adapters/src/ibt_parser.rs:906 | distinct variables get distinct `iracing/` keys |
| `IbtFrame.KeysOver` | ost-adapters/src/ibt_parser.rs:899-908 | every extras key is `iracing/` followed by the name of a sample variable |
| `IbtFrame.ExtrasSpec` | ost-adapters/src/ibt_parser.rs:895-909 | every variable outside MAPPED_VARS and not prefixed "CarIdx" appears as `iracing/<name>` with its value; every key comes from such a variable; no mapped or CarIdx variable appears |
| `IbtFrame.Extras` | ost-adapters/src/ibt_parser.rs:895-909 | the extras loop computes `ExtrasOf` |
| `IbtFrame.ExtrasStep` | ost-adapters/src/ibt_parser.rs:899-908 | one loop turn adds the variable's key exactly when it is an extra |
| `Replay.SaturatingSub` | ost-server/src/replay.rs:124 | `saturating_sub`: the difference, or 0 when it would be negative |
| `Replay.ClampSpeed` | ost-server/src/replay.rs:127-129 | the speed lies in [0.1, 16]; kept inside the range; clamped to each bound outside it |
| `Replay.Initial` | ost-server/src/replay.rs:38-44 | a fresh replay's cursor is valid |
| `Replay.StepValid` | ost-server/src/replay.rs:115-143 | every command keeps the cursor inside `[0, total_frames-1]`, the speed inside its bounds, and the frame count |
| `Replay.RunValid` | ost-server/src/replay.rs:115-143 | any sequence of commands keeps the cursor valid |
| `Replay.FreshReplayStaysInRange` | ost-server/src/replay.rs:38-44 | from a fresh replay, after any commands, the frame is at most the last frame and the speed is within bounds |
| `Replay.SeekClamps` | ost-server/src/replay.rs:123-125 | a seek lands on `min(target, last frame)`, seeking again is idempotent, and only the frame changes |
| `Replay.PlayPauseOnlyPlaying` | ost-server/src/replay.rs:115-121 | play and pause set only the playing flag |
| `Replay.AdvanceCases` | ost-server/src/replay.rs:131-143 | paused: nothing changes and nothing is shown; at the last frame: playback stops; otherwise the frame moves by one and the new frame is returned |
| `Replay.AdvanceTimesMoves` | ost-server/src/replay.rs:131-143 | k advances while playing and not passing the end move the frame by exactly k |
| `Replay.AdvanceTimesStopped` | ost-server/src/replay.rs:132-134 | advancing a paused cursor any number of times changes nothing |
| `Replay.AdvanceTimesFirst` | ost-server/src/replay.rs:131-143 | k+1 advances are k advances followed by one |
| `Replay.PlaybackReachesEnd` | ost-server/src/replay.rs:131-143 | a playing cursor reaches the last frame after exactly `last - frame` advances and stops on the next one |
| `Replay.FrameWindow` | ost-server/src/replay.rs:66-70 | start clamped to the last frame; count at most the request, at most 7200 and within the recording; and as large as those bounds allow |
| `Replay.ReplayState.FromFile` | ost-server/src/replay.rs:28-51 | frame 0, playing, speed 1.0, total frames the file's record count, track and car names from the session info |
| `Replay.ReplayState.Play` | ost-server/src/replay.rs:115-117 | the cursor takes the Play step |
| `Replay.ReplayState.Pause` | ost-server/src/replay.rs:119-121 | the cursor takes the Pause step |
| `Replay.ReplayState.Seek` | ost-server/src/replay.rs:123-125 | the cursor takes the Seek step |
| `Replay.ReplayState.SetSpeed` | ost-server/src/replay.rs:127-129 | the cursor takes the SetSpeed step |
| `Replay.ReplayState.Advance` | ost-server/src/replay.rs:131-143 | the cursor and the returned frame are those of the Advance step |
| `Replay.ReplayState.GetFramesRange` | ost-server/src/replay.rs:61-79 | an error exactly for an empty recording or a clamped window outside the file; otherwise the window's frames, each paired with its index `start + i` |
| `FieldMasks.All` | ost-core/src/model.rs:272-277 | the all-mask is "all" and includes every field |
| `FieldMasks.DefaultIncludesNothing` | ost-core/src/model.rs:264-268 | the derived default mask includes no field and is not "all" |
| `FieldMasks.IncludesIgnoresCase` | ost-core/src/model.rs:299-301 | membership of a name and of its lowercase form agree |
| `FieldMasks.FromStr` | ost-core/src/model.rs:280-291 | a parsed mask is never "all" |
| `FieldMasks.CollectSpec` | ost-core/src/model.rs:281-285 | a name is collected exactly when some piece, trimmed and lowercased, yields it and it is not empty |
| `FieldMasks.FromStrFields` | ost-core/src/model.rs:280-291 | the fields of `from_str(s)` are exactly the non-empty trimmed, lowercased comma-separated pieces |
| `FieldMasks.FromStrLowered` | ost-core/src/model.rs:283 | every parsed field is already lowercase |
| `FieldMasks.FromStrIncludes` | ost-core/src/model.rs:280-301 | a parsed mask includes a field, in any case, exactly when some piece names it |
| `FieldMasks.Add` | ost-core/src/model.rs:316-319 | adding stores the lowercased name and keeps the earlier ones, nothing else |
| `FieldMasks.Build` | ost-core/src/model.rs:357-362 | a built mask is not "all" and has the builder's fields |
| `FieldMasks.BuiltMaskIncludes` | ost-core/src/model.rs:316-362 | a built mask includes a field exactly when an added name matches it ignoring case |
| `FieldMasks.Picked` | ost-core/src/model.rs:383-552 | the conditional insertions, in list order, only ever add optional-field keys |
| `FieldMasks.NameKeys` | ost-core/src/model.rs:372 | the full output's optional keys are field keys |
| `FieldMasks.FilteredFixedKeys` | ost-core/src/model.rs:378-380 | timestamp and game are always emitted, with their values |
| `FieldMasks.FilteredExtras` | ost-core/src/model.rs:553-555 | extras are emitted exactly when masked in and non-empty, with the frame's extras |
| `FieldMasks.PickedField` | ost-core/src/model.rs:383-552 | a listed field is picked exactly when masked in and present, with its value |
| `FieldMasks.FilteredField` | ost-core/src/model.rs:383-552 | in the filtered output an optional field appears exactly when masked in and present, with its value |
| `FieldMasks.FullKeys` | ost-core/src/model.rs:371-373 | without a mask or with an all-mask, every field key appears (absent fields as null), plus timestamp, game and extras |
| `FieldMasks.PickFields` | ost-core/src/model.rs:376-552 | the insertions build timestamp, game and the picked fields |
| `FieldMasks.Filter` | ost-core/src/model.rs:374-557 | the filtered branch builds exactly the filtered output |
| `FieldMasks.ToJsonFiltered` | ost-core/src/model.rs:370-558 | the full output for no mask or an all-mask, otherwise the filtered output |
| `Api.GeneratedId` | ost-server/src/api.rs:134 | a generated id is "sink-" followed by the decimal digits of len+1, without a leading zero |
| `Api.GeneratedIdInjective` | ost-server/src/api.rs:134 | registries of different sizes generate different ids |
| `Api.WithId` | ost-server/src/api.rs:132-135 | a non-empty id is kept; an empty id becomes the generated one; type and mask are kept; the stored id is never empty |
| `Api.FirstIndex` | ost-server/src/api.rs:148 | the index of the first sink with the id, or None when none has it |
| `Api.DeletedSpec` | ost-server/src/api.rs:148-153 | a deletion finds a sink exactly when one has the id; it then drops only the first such sink, keeping the others in order |
| `Api.CreateThenDeleteFresh` | ost-server/src/api.rs:129-153 | deleting the id of a just-created sink whose id was new restores the registry |
| `Api.AsUsize` | ost-server/src/api.rs:300-303 | `f64 as usize` saturates: 0 for values at or below 0, the floor in between, `usize::MAX` for values at or above it |
| `Api.Control` | ost-server/src/api.rs:283-318 | no replay: 404; an unknown action, or seek/speed without a value: 400 with the cursor unchanged; otherwise a non-error answer |
| `Api.PlayPauseReplies` | ost-server/src/api.rs:289-298 | play answers "playing" and pause "paused", and each changes only the playing flag |
| `Api.SeekReportsClampedFrame` | ost-server/src/api.rs:299-305 | a seek answers with the clamped frame, and only the frame changes |
| `Api.SpeedReportsClampedSpeed` | ost-server/src/api.rs:307-312 | a speed request answers with the clamped speed, and only the speed changes |
| `Api.ControlKeepsValid` | ost-server/src/api.rs:288-318 | every control request keeps the cursor valid and its frame count |
| `Api.ValidateUpload` | ost-server/src/api.rs:163-194 | 409 whenever a replay exists; otherwise accepted exactly for a readable file part whose name (default `upload.ibt`) ends in `.ibt` ignoring case; every other failure is 400 |
| `Api.MissingNameDefaults` | ost-server/src/api.rs:179-182 | a part without a file name is accepted as `upload.ibt` |
| `Api.ExtensionIgnoresCase` | ost-server/src/api.rs:184 | the extension check of a name and of its lowercase form agree |
| `Api.UpperCaseExtensionAccepted` | ost-server/src/api.rs:184 | `.IBT`, `.Ibt` and `.ibt` are all accepted |
| `Api.StoreUpload` | ost-server/src/api.rs:198-209 | temp-dir and write failures are 500, a parse failure is 400, otherwise the parsed file |
| `Api.AppState.constructor` | ost-server/src/state.rs:59-79 | no sinks, no replay, no playback task |
| `Api.AppState.CreateSink` | ost-server/src/api.rs:125-140 | 201; the stored config is `WithId`; it is appended to the registry; nothing else changes; a valid replay cursor stays valid |
| `Api.AppState.DeleteSink` | ost-server/src/api.rs:142-154 | 204 and the first matching sink removed, or 404 and the registry unchanged; a valid replay cursor stays valid |
| `Api.AppState.ReplayUpload` | ost-server/src/api.rs:159-224 | the failure of validation or storing, with nothing changed; on success a fresh replay at frame 0 of the parsed file and a playback task |
| `Api.AppState.ReplayControl` | ost-server/src/api.rs:279-319 | the replay's cursor and the answer are those of `Control` |
| `Api.AppState.ReplayDelete` | ost-server/src/api.rs:321-341 | the playback task is cancelled; 404 without a replay, otherwise 204 with the replay cleared |
| `Api.Position` | ost-server/src/api.rs:148 | the scan computes `FirstIndex` |
| `Manager.Find` | ost-server/src/manager.rs:68 | the index of the first adapter with the key, or None when none has it |
| `Manager.FirstStarting` | ost-server/src/manager.rs:91-109 | the first adapter, in list order, that is not disabled, detected, not running and starts successfully |
| `Manager.CycleKeepsAdapters` | ost-server/src/manager.rs:60-117 | the cycle keeps the adapter list and changes only running flags |
| `Manager.StillDetectedChangesNothing` | ost-server/src/manager.rs:67-86 | an active adapter that is still detected: nothing changes and nothing is broadcast |
| `Manager.LostGameStops` | ost-server/src/manager.rs:69-85 | an active adapter no longer detected is stopped and the key cleared (even if the stop fails); nothing starts; other adapters are unchanged |
| `Manager.SearchStartsFirst` | ost-server/src/manager.rs:89-109 | with no usable active key, the first startable adapter is started and becomes active, nothing else changes; when none starts, nothing changes |
| `Manager.CycleKeepsOneRunning` | ost-server/src/manager.rs:47-117 | with distinct keys and a stop that succeeds, a cycle keeps every running adapter equal to the one the active key names |
| `Manager.FailedStopLeavesTwoRunning` | ost-server/src/manager.rs:74-77 | when a stop fails the key is cleared anyway, so the next cycle can start a second adapter while the first still runs |
| `Manager.AtMostOneStarted` | ost-server/src/manager.rs:89-109 | at most one adapter starts per cycle, it is not disabled, and it becomes the active one |
| `Manager.FailedStartSkipped` | ost-server/src/manager.rs:97-106 | an adapter whose start fails stays as it is, and the active key is unchanged or names another adapter that started |
| `Manager.StaleKeyKept` | ost-server/src/manager.rs:67-68 | a key naming no adapter falls through to the search and stays when nothing starts |
| `Manager.ReadTarget` | ost-server/src/manager.rs:122-140 | nothing is read while a replay is present or no adapter is active; otherwise the adapter the key names |
| `Manager.Broadcast` | ost-server/src/manager.rs:140-154 | a frame is sent exactly when the target adapter delivered one, and it is that frame; never during a replay or without an active adapter |
| `Manager.AdapterManager.constructor` | ost-server/src/state.rs:65-70 | nothing active and `demo` disabled |
| `Manager.AdapterManager.DetectionCycle` | ost-server/src/manager.rs:47-117 | the loop with its early return and `break` takes exactly one `Cycle` step, and keeps the disabled set |
| `Manager.AdapterManager.FrameReadCycle` | ost-server/src/manager.rs:120-157 | the adapter read and the frame sent are `ReadTarget` and `Broadcast` |
| `Manager.FindAdapter` | ost-server/src/manager.rs:68 | the scan computes `Find` |
| `Manager.DemoNotStartedInitially` | ost-server/src/state.rs:65-66 | with the initial disabled set the demo adapter is never started |
| `Text.Lower` | ost-core/src/model.rs:283 | same length, each character lowercased |
| `Text.LowerIdempotent` | ost-core/src/model.rs:299-301 | lowercasing twice is lowercasing once |
| `Text.Trim` | ost-adapters/src/ibt_parser.rs:188 | a contiguous slice of the input with only whitespace outside it, and no whitespace at either of its ends |
| `Text.Split` | ost-core/src/model.rs:282 | at least one piece, none containing the separator |
| `Text.JoinSplit` | ost-core/src/model.rs:282 | joining the pieces with the separator gives back the string |
| `Text.StripPrefix` | ost-adapters/src/ibt_parser.rs:226 | Some exactly when the string starts with the prefix, and prefix + rest is the string |
| `Text.ParseI32` | ost-adapters/src/ibt_parser.rs:205 | accepted exactly when the string is digits, `+` digits or `-` digits (at least one digit) whose signed value lies in the i32 range, and the value is that signed value; anything else is rejected |
| `Text.ParseUnsigned` | ost-adapters/src/ibt_parser.rs:205 | a digit string parses to its value when below 2^31 and is rejected otherwise |
| `Text.ParseNegative` | ost-adapters/src/ibt_parser.rs:205 | a minus sign and a digit string parse to minus its value down to -2^31, and are rejected below |
| `Text.ParseDecimal` | ost-adapters/src/ibt_parser.rs:205 | the decimal text of n parses back as n below 2^31, and with a minus sign as -n down to `i32::MIN`; 2^31 without a sign overflows |
| `Text.ContainsPrefix` | ost-adapters/src/ibt_parser.rs:988 | a string containing `qualify` contains `qual`: containing a pattern means containing each of its prefixes |
| `Text.DecimalString` | ost-server/src/api.rs:134 | decimal digits only, without a leading zero |
| `Text.DigitsOfDecimal` | ost-server/src/api.rs:134 | the digits of n have the value n |

## Left out

- The browser client (live buffer, replay cache, playback clock): its JavaScript sources are not part of this model.
- Locks, channels, SSE streaming, the spawned playback loop and its timing (`start_playback_task`), and the once-per-second rate limit of `detection_cycle`. These are concurrency and clocks. The playback task appears only as a flag that upload and delete set and clear.
- File I/O: `IbtFile::open` and its header, var-buf and sub-header reads; the temporary file of an upload and its removal. The opened file is an `IbtFile` value (bytes, offsets, headers, session info), and the outcomes of the upload's I/O steps are parameters.
- `Api.AppState.ReplayControl`: after `play`, the source restarts the playback task; the model does not restart it.
- serde serialisation: JSON text, `var_value_to_json`, the response bodies of upload and info. Output is a map from keys to values.
- `sample_to_frame`'s float mappings (units, vectors, wheels). Only its track-surface table and its extras filter are modelled. Float bit patterns are kept, not interpreted.
- `Replay.ReplayState.GetFramesRange`: returns decoded samples paired with their indices, not `TelemetryFrame`s, because `sample_to_frame` is not modelled. `get_frame`, `info`, `duration_secs`, `file_size`, the temporary path and its removal on drop are left out.
- `Api.AsUsize`: NaN (which Rust maps to 0) is not modelled; the value is a real.
- `Replay.ClampSpeed`: NaN is not modelled.
- `Text.Lower`: lowercases ASCII letters only; Rust's `to_lowercase` also covers the rest of Unicode.
- `IbtDecode.NullTerminated`: returns the bytes; the lossy UTF-8 conversion to a string is not modelled.
- `IbtDecode.IbtFile`: `bufLen`, `recordCount` and `tickRate` hold the header values after the source's `as usize`/`as u32` casts, as naturals. A negative `i32` in the header, which the casts turn into a huge value, is not modelled. Neither is overflow of `sample_data_offset + start * buf_len` or `buf_len * count` in 64-bit arithmetic, which panics or wraps in the source. In the model these products are exact, so a corrupt header gives a plain short-read error.
- `IbtDecode.VarHeader`: offset and count are naturals. A negative `i32` read from the file, which the source casts to a huge `usize`, is not modelled.
- `IbtDecode.Readable`: a record length of 0 makes every read succeed with empty records. The source's `read_exact` of 0 bytes also succeeds.
- VarValue accessors (`as_f32`, `as_i32`, …), `list_adapters`, `list_sinks`, `replay_info`, `replay_frames`' JSON shape, and `telemetry_stream`: these are queries and serialisation, not logic of the handlers modelled.
- The builder shortcuts (`rpm()`, `speed()`, …) are `add` with a fixed name; `FieldMasks.AddAll` covers any sequence of adds.
- `sinks.rs`, `iracing.rs`, `demo.rs` and the `TelemetryAdapter` trait: the adapters are records of what their `detect`, `start`, `stop` and `read_frame` answer in a cycle.
- Sink-id uniqueness is not promised by the source (`sink-{len+1}` can repeat after a delete), and nothing here states it.
