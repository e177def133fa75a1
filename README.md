# Afterburner/RTSS shared-memory decoders in Dafny

This project models the two decoders at the core of the AfterburnerRtss Macro Deck plugin.
Each decoder takes one snapshot of a shared-memory segment written by a monitoring tool and
turns it into a dictionary of integer readings.

- **MSI Afterburner (`MAHMSharedMemory`).** `AfterburnerReader.TryReadSensors` validates the
  header: the signature must be `'MHAM'` and the entry count and entry size must be nonzero.
  It walks the `entryCount` sensor records at `headerSize + i * entrySize` and decodes each
  record's zero-terminated name and units (`Utf8Z`). It skips blank names. `MapCommon`
  classifies each remaining sensor by an ordered, first-match list of name/unit rules:
  - a matched sensor writes a per-GPU key (`ab_gpu<idx>_<metric>`) and an aggregate key,
    overwriting both;
  - an unmatched sensor is stored once under `ab_raw_<SafeKey(name)>`.
- **RivaTuner Statistics Server (`RTSSSharedMemoryV2`).** `RtssReader.TryRead` validates the
  header: the signature must be `'RTSS'` and the entry size and array size must be nonzero.
  It walks the application array in strides of `appEntrySize` and keeps the frame rate and
  frame time of the active process with the highest frame rate. It then publishes
  `rtss_fps` and `rtss_frametime_ms`. As written, the runtime refuses the slot read, because
  the slot struct holds a `string`, so the decoder returns null on every view. The module
  `RtssAsWritten` models that, and `Rtss` models the evidently intended read (see Findings).

In both decoders, a read past the end of the view raises an exception inside the `try`. The
decoder then returns null, which the model writes as `None`. RTSS also returns null when it has
nothing to publish.

## Modelling decisions

- **Mapped view.** The view is a `seq<byte>`. `ReadStruct` returns `None` when the struct
  does not fit. Structs are packed, and every 32-bit field is little-endian. Encoders
  (`EncodeHeader`, `EncodeEntry`, `EncodeAppEntry`) say what a producer writes, and the
  round-trip lemmas tie them to the parsers.
- **Floats.** C# `float` fields are decoded from their IEEE 754 binary32 bits into
  `Single.Float`. `>` follows C#: every comparison with NaN is false.
  `(long)Math.Truncate(v)` truncates toward zero and saturates to the 64-bit range, and NaN
  gives 0.
- **GPU index.** `(int)entry.gpu` is the two's-complement reinterpretation of the field.
  `gpuIndex.ToString()` is written out digit by digit, with a leading `-` for a negative index.
- **Loops as methods.** The loops of the source are methods proved equal to specification
  functions:
  - `ReadRecords` and `TryReadSensors` equal `ReadSensors`, which replays the per-record
    effects;
  - `WalkSlots` and `TryRead` equal `ReadFrameRate`;
  - `ReadUtf8Z` equals `Utf8Z`;
  - `BuildSafeKey` equals `SafeKey`;
  - `MapCommon` equals `MapCommonResult`.
- **Sensor effects.** Each sensor record has an `Effect` (`Skip`, `Assign` or `Insert`), so
  that facts about the result dictionary are proved once, over any sequence of effects.
- **Behaviour worth stating, as the code has it:**
  - A matched rule's aggregate key is overwritten by every later matching sensor, so the
    last one wins (AfterburnerReader.cs:76).
  - The fallback key is `ab_raw_<key>` (AfterburnerReader.cs:99), written only when absent
    (line 100).
  - A rejected header or a read past the view gives null, not an empty dictionary
    (AfterburnerReader.cs:51 and 70, RtssReader.cs:47 and 75). An accepted Afterburner
    header with no publishable sensor gives an empty dictionary (line 68), while RTSS turns
    an empty result into null (RtssReader.cs:73).

## Model

| member | source | states |
|---|---|---|
| SharedMemory.ReadStruct | AfterburnerReader.cs:119-125 | a read of a struct succeeds exactly when it lies inside the view, and then yields the bytes at that position |
| SharedMemory.U32RoundTrip | AfterburnerReader.cs:14-25 | the four little-endian bytes written for a 32-bit field read back as the same number |
| SharedMemory.U32BytesRoundTrip | AfterburnerReader.cs:14-25 | any four bytes read as a 32-bit field are re-encoded to exactly those bytes |
| SharedMemory.U32AtFramed | AfterburnerReader.cs:14-25 | a field written at some offset reads back whatever bytes surround it |
| SharedMemory.PackedFieldAt | AfterburnerReader.cs:14-25 | in a packed run of 32-bit fields, field k reads back at byte offset 4k |
| SharedMemory.U32AtShift | AfterburnerReader.cs:27-40 | a field read after a prefix is the field of the bytes that follow the prefix (fields after the text buffers) |
| SharedMemory.Int32Of | AfterburnerReader.cs:65 | `(int)entry.gpu` is in the int32 range and congruent to the field modulo 2^32 |
| SharedMemory.Int32Bits | AfterburnerReader.cs:22 | the bit pattern of an `int` field reinterprets to the same `int` |
| Single.FromBits | AfterburnerReader.cs:35 | a binary32 pattern is NaN, infinite, positive or negative exactly as its sign, exponent and fraction say |
| Single.Magnitude | AfterburnerReader.cs:35 | a finite float's magnitude is zero exactly when both exponent and fraction are zero |
| Single.SignBitNegates | AfterburnerReader.cs:35 | flipping the sign bit negates the decoded value |
| Single.GtOrder | RtssReader.cs:64 | C# `>` on floats is irreflexive, transitive (also through `>=`), total on non-NaN values, and false when NaN is involved |
| Single.Gt | RtssReader.cs:64 | C# `a > b`: false when either side is NaN, ordered by value on finite values, with negative infinity below and positive infinity above every finite value |
| Single.Ge | RtssReader.cs:64 | C# `a >= b`: false when either side is NaN, otherwise the negation of `b > a` |
| Single.TruncateToInt64 | AfterburnerReader.cs:77 | `(long)Math.Truncate(v)` drops the fraction toward zero inside the 64-bit range, saturates outside it, and maps NaN to 0 |
| Single.TruncatePositive | RtssReader.cs:67-70 | a positive reading truncates to a non-negative integer, and to at least 1 when it is at least 1 |
| Text.TerminatorFrom | AfterburnerReader.cs:112 | the scan stops at the first zero byte at or after its start, or at the capacity of 260 |
| Text.TextLength | AfterburnerReader.cs:112 | the text length is at most 260, every byte before it is nonzero, and the byte at it is zero unless the buffer is full |
| Text.TextLengthUnique | AfterburnerReader.cs:112 | any cut point with those properties is the text length |
| Text.IsWhiteSpace | AfterburnerReader.cs:63 | `char.IsWhiteSpace`: U+0009 to U+000D, space, U+0085, U+00A0, U+1680, U+2000 to U+200A, U+2028, U+2029, U+202F, U+205F and U+3000 |
| Text.IsNullOrWhiteSpace | AfterburnerReader.cs:63 | a name is blank exactly when every character of it is white space, the empty name included |
| Text.Contains | AfterburnerReader.cs:83-96 | ordinal `Contains`: the text occurs at some position of the string, so the empty text is in every string |
| Text.Utf8ZLeadingZero | AfterburnerReader.cs:113 | a buffer starting with a zero byte decodes to the empty string |
| Text.Utf8ZIgnoresTail | AfterburnerReader.cs:110-116 | two buffers that agree up to and including the terminator decode alike |
| Text.Utf8ZPadded | AfterburnerReader.cs:110-116 | a zero-free text, zero-padded to 260 bytes (or filling them), decodes from exactly its own bytes |
| Text.ReadUtf8Z | AfterburnerReader.cs:110-116 | the counting loop and the empty-string case give the decoded text before the first zero |
| Text.Utf8Z | AfterburnerReader.cs:110-116 | the decoded text is the decoder applied to the bytes before the first zero (at most 260), and the empty string when there are none |
| Text.LowerChar | AfterburnerReader.cs:80-81 | lowercasing maps A-Z to a-z and leaves every other character alone |
| Text.ToLower | AfterburnerReader.cs:80-81 | `ToLowerInvariant` lowercases every character in place and keeps the length |
| Text.KeyChar | AfterburnerReader.cs:106 | each character of the sanitised key is a lowercase letter, a digit or `_` |
| Text.Sanitized | AfterburnerReader.cs:105-106 | the StringBuilder holds, character for character, the lowercased letter or digit, or `_` for anything else; the length is kept |
| Text.TrimStart | AfterburnerReader.cs:107 | trimming leading underscores leaves a suffix that does not start with `_`, and only underscores are removed |
| Text.TrimEnd | AfterburnerReader.cs:107 | trimming trailing underscores leaves a prefix that does not end with `_`, and only underscores are removed |
| Text.Trim | AfterburnerReader.cs:107 | `Trim('_')` leaves a text neither starting nor ending with `_` |
| Text.SafeKeyShape | AfterburnerReader.cs:103-108 | SafeKey yields only lowercase letters, digits and `_`, neither starts nor ends with `_`, and is no longer than the name |
| Text.SafeKey | AfterburnerReader.cs:103-108 | the fallback key is the sanitised name with leading and trailing underscores trimmed |
| Text.KeyCharsSlice | AfterburnerReader.cs:107 | trimming a text of key characters leaves key characters |
| Text.SafeKeyIdempotent | AfterburnerReader.cs:103-108 | applying SafeKey to a SafeKey changes nothing |
| Text.BuildSafeKey | AfterburnerReader.cs:103-108 | the StringBuilder loop followed by `Trim('_')` computes SafeKey |
| Text.NatToString | AfterburnerReader.cs:79 | a natural number prints as decimal digits with no leading zero |
| Text.NatToStringRoundTrip | AfterburnerReader.cs:79 | the printed digits denote the number printed |
| Text.IntToString | AfterburnerReader.cs:79 | `gpuIndex.ToString()` is digits, with at most a leading minus sign |
| Text.IntToStringInjective | AfterburnerReader.cs:79 | distinct GPU indices print differently |
| Classifier.FirstMatchFrom | AfterburnerReader.cs:83-97 | the rule found matches, and no rule between the start and it matches; None means no rule from the start on matches |
| Classifier.UnitsPass | AfterburnerReader.cs:83-96 | a rule's unit test: units containing one of the listed texts, units equal to `w` or containing `watt`, or units containing `fps` or empty |
| Classifier.RuleMatches | AfterburnerReader.cs:83-96 | a rule fires when the lowercased name contains one of its names and the lowercased units pass its unit test |
| Classifier.Classify | AfterburnerReader.cs:80-97 | MapCommon applies the first rule, in source order, whose name and unit tests the lowercased name and units pass; None exactly when no rule matches |
| Classifier.PerGpuKey | AfterburnerReader.cs:79-95 | the per-GPU key is `ab_gpu`, the printed GPU index, `_` and the rule's metric |
| Classifier.RawKey | AfterburnerReader.cs:99 | the fallback key is `ab_raw_` followed by the SafeKey of the original name |
| Classifier.EffectOf | AfterburnerReader.cs:77-100 | a classified sensor assigns its rule's keys the truncated value; an unclassified one inserts its fallback key with it |
| Classifier.Apply | AfterburnerReader.cs:75-100 | Skip leaves the dictionary alone, Assign overwrites each key, Insert adds the key only when it is absent |
| Classifier.AssignAll | AfterburnerReader.cs:75-76 | the local `add` sets every listed key to the value and leaves all other entries unchanged |
| Classifier.ApplyEffect | AfterburnerReader.cs:75-100 | a sensor's effect adds exactly the keys it writes; assigned keys and a fresh raw key take its value; other entries stay |
| Classifier.EffectShape | AfterburnerReader.cs:73-101 | every key MapCommon writes starts with `ab_`, every value is a 64-bit integer, and no rule ever writes a fallback key |
| Classifier.MapCommonResult | AfterburnerReader.cs:73-101 | a matched sensor sets its rule's keys to the truncated value and keeps everything else; an unmatched one inserts its raw key only when absent |
| Classifier.MapCommon | AfterburnerReader.cs:73-101 | the method (the `add` loop, or the check-then-insert of the raw key) produces MapCommonResult |
| Classifier.FanPercentNeverRpm | AfterburnerReader.cs:90-92 | a "fan speed" sensor in "%" is classified at or before the fan-percentage rule, so never as RPM |
| Classifier.PowerWattsUnits | AfterburnerReader.cs:93-94 | the watts rule fires only for a name containing "power" and units exactly "w" or containing "watt" |
| Classifier.RuleKeysShape | AfterburnerReader.cs:83-97 | every rule but framerate writes two distinct keys; framerate writes only `ab_fps` |
| Classifier.PerGpuKeyInjective | AfterburnerReader.cs:79-83 | per-GPU keys of different GPU indices never collide |
| Classifier.AggregatePrefixed | AfterburnerReader.cs:83-97 | every aggregate key starts with `ab_` followed by a letter other than `r` |
| Classifier.KeysPrefixed | AfterburnerReader.cs:83-100 | rule keys and fallback keys start with `ab_`, and a fallback key is never a rule key |
| Classifier.MatchedLastWins | AfterburnerReader.cs:75-76 | after a matched sensor, its aggregate key holds that sensor's value whatever was there before |
| Classifier.RawFirstWins | AfterburnerReader.cs:99-100 | a second unmatched sensor with the same SafeKey leaves the dictionary unchanged |
| ClassifierExamples.TemperatureExample | AfterburnerReader.cs:83 | "GPU Temperature" in "C" at 65.7 on GPU 0 publishes 65 under `ab_gpu0_temp_c` and `ab_gpu_temp_c` |
| ClassifierExamples.FanSpeedSkipsEarlierRules | AfterburnerReader.cs:83-90 | no rule before the fan-percentage rule matches "fan speed" |
| ClassifierExamples.FanPercentExample | AfterburnerReader.cs:90 | "Fan Speed" in "%" is the fan percentage |
| ClassifierExamples.FanRpmExample | AfterburnerReader.cs:91-92 | "Fan Speed" in "RPM" is the fan RPM |
| ClassifierExamples.BoardPowerLimitUnmatched | AfterburnerReader.cs:83-97 | "Board Power Limit" with empty units matches no rule |
| ClassifierExamples.GpuRulesMissBoardPowerLimit | AfterburnerReader.cs:83-86 | the GPU temperature, usage and clock rules do not match that name |
| ClassifierExamples.MemoryRulesMissBoardPowerLimit | AfterburnerReader.cs:87-89 | the memory rules do not match that name |
| ClassifierExamples.FanRulesMissBoardPowerLimit | AfterburnerReader.cs:90-97 | the fan and framerate rules do not match that name |
| ClassifierExamples.NamesLacking | AfterburnerReader.cs:83-97 | a name lacking a character common to all of a rule's names matches none of them |
| ClassifierExamples.BoardPowerLimitSanitized | AfterburnerReader.cs:106 | its sanitised form is `board_power_limit` |
| ClassifierExamples.BoardPowerLimitKey | AfterburnerReader.cs:103-108 | its SafeKey is `board_power_limit` |
| ClassifierExamples.BoardPowerLimitRawKey | AfterburnerReader.cs:99 | its fallback key is `ab_raw_board_power_limit` |
| ClassifierExamples.RawExample | AfterburnerReader.cs:99-100 | at 250 it publishes `ab_raw_board_power_limit = 250`, and a second such sensor at 300 on GPU 1 does not overwrite it |
| Afterburner.HeaderFields | AfterburnerReader.cs:14-25 | the header has eight 32-bit fields |
| Afterburner.EncodeHeader | AfterburnerReader.cs:14-25 | a header occupies 32 bytes |
| Afterburner.HeaderRoundTrip | AfterburnerReader.cs:14-25 | parsing the bytes of an encoded header gives the header back |
| Afterburner.ParseHeader | AfterburnerReader.cs:14-25 | the eight header fields are the little-endian 32-bit words at offsets 0 to 28, `time` read as a signed `int` |
| Afterburner.EncodeEntry | AfterburnerReader.cs:27-40 | a sensor record occupies 1320 bytes |
| Afterburner.EntryRoundTrip | AfterburnerReader.cs:27-40 | parsing the bytes of an encoded record gives the record back |
| Afterburner.ParseEntry | AfterburnerReader.cs:27-40 | five 260-byte text buffers, then `data`, `minLimit`, `maxLimit`, `flags` and `gpu` as 32-bit words at offsets 1300 to 1316 |
| Afterburner.ReadHeader | AfterburnerReader.cs:49 | the header is read exactly when the view holds 32 bytes, and is those bytes parsed |
| Afterburner.ReadEntry | AfterburnerReader.cs:58 | a record is read exactly when its 1320 bytes lie in the view, and is those bytes parsed |
| Afterburner.HeaderAccepted | AfterburnerReader.cs:50 | a header is accepted exactly when its signature is `MHAM` and entry count and entry size are nonzero |
| Afterburner.RecordOffset | AfterburnerReader.cs:55-59 | record i starts at `headerSize + i * entrySize` |
| Afterburner.RecordOffsetNext | AfterburnerReader.cs:55-59 | each record starts `entrySize` after the previous one |
| Afterburner.ReadableExtend | AfterburnerReader.cs:56-59 | one more record that fits extends the readable prefix |
| Afterburner.UnreadableFrom | AfterburnerReader.cs:56-58 | one record past the view makes the whole walk fail |
| Afterburner.Effects | AfterburnerReader.cs:56-66 | record j's effect is MapCommon's effect for record j's name, units, reading and GPU index, or nothing for a blank name |
| Afterburner.RecordEffect | AfterburnerReader.cs:61-65 | a record with a blank name has no effect; any other has MapCommon's effect for its decoded name and units, its reading and its GPU index |
| Afterburner.Replay | AfterburnerReader.cs:53-66 | the dictionary is built by applying the effects in record order to an empty one |
| Afterburner.ReplaySnoc | AfterburnerReader.cs:56-66 | handling one more sensor applies its effect to the dictionary so far |
| Afterburner.ReplayStep | AfterburnerReader.cs:56-66 | the dictionary after record n + 1 is the one after record n with record n's effect applied |
| Afterburner.AbsorbEntry | AfterburnerReader.cs:61-65 | the loop body decodes name and units, skips a blank name, and otherwise applies MapCommon |
| Afterburner.ReadRecords | AfterburnerReader.cs:53-68 | the record loop fails exactly when a record runs past the view, and otherwise yields the replay of all records' effects |
| Afterburner.TryReadSensors | AfterburnerReader.cs:42-71 | the decoder returns ReadSensors: null for a missing or rejected header or a record past the view, else the folded dictionary |
| Afterburner.ReadSensors | AfterburnerReader.cs:42-71 | null for an unreadable or rejected header or any of the `entryCount` records past the view; otherwise the replay of every record's effect |
| AfterburnerProperties.ReplayDomain | AfterburnerReader.cs:56-66 | a key is in the result exactly when some sensor's effect writes it |
| AfterburnerProperties.ReplayLastOverwrite | AfterburnerReader.cs:75-76 | a rule key holds the value of the last sensor assigning it |
| AfterburnerProperties.ReplayFirstInsert | AfterburnerReader.cs:99-100 | a raw key holds the value of its first inserting sensor, if nothing wrote it before or assigns it after |
| AfterburnerProperties.ReplayPublished | AfterburnerReader.cs:56-66 | if every effect writes `ab_` keys and 64-bit values, so does the result |
| AfterburnerProperties.RecordEffectShape | AfterburnerReader.cs:61-65 | a record's effect writes `ab_` keys and a 64-bit value, is nothing exactly for a blank name, inserts its own raw key, and never assigns any raw key |
| AfterburnerProperties.ReadSensorsReplays | AfterburnerReader.cs:49-68 | a non-null result means an accepted header and readable records, and is the replay of their effects |
| AfterburnerProperties.PublishedKeysAndValues | AfterburnerReader.cs:42-101 | every published key starts with `ab_` and every value is a 64-bit integer |
| AfterburnerProperties.PublishedKeysWritten | AfterburnerReader.cs:56-66 | a key is published exactly when some record's effect writes it |
| AfterburnerProperties.MatchedKeyHoldsLastReading | AfterburnerReader.cs:56-76 | a rule key holds the reading of the last record whose rule assigns it |
| AfterburnerProperties.RawKeyHoldsFirstReading | AfterburnerReader.cs:56-100 | an `ab_raw_` key holds the reading of the first record inserting it |
| AfterburnerProperties.OffsetMonotone | AfterburnerReader.cs:55-59 | record offsets grow with the record index |
| AfterburnerProperties.DefinedIffLastRecordFits | AfterburnerReader.cs:50-70 | with an accepted header, the result is non-null exactly when the last record fits in the view |
| Rtss.HeaderFields | RtssReader.cs:12-24 | the header has nine 32-bit fields |
| Rtss.EncodeHeader | RtssReader.cs:12-24 | a header occupies 36 bytes |
| Rtss.HeaderRoundTrip | RtssReader.cs:12-24 | parsing the bytes of an encoded header gives the header back |
| Rtss.ParseHeader | RtssReader.cs:12-24 | the nine header fields are the little-endian 32-bit words at offsets 0 to 32 |
| Rtss.StatFields | RtssReader.cs:32-35 | the four 32-bit fields after the name, in order |
| Rtss.EncodeAppEntry | RtssReader.cs:26-36 | an application slot occupies 280 bytes |
| Rtss.AppEntryRoundTrip | RtssReader.cs:26-36 | parsing the bytes of an encoded slot gives the slot back |
| Rtss.ParseAppEntry | RtssReader.cs:26-36 | `processId` at offset 0, the 260-byte name, then `flags`, `statFrame`, `statFramerate` and `statFrameTime` at offsets 264 to 276 |
| Rtss.ReadHeader | RtssReader.cs:45 | the header is read exactly when the view holds 36 bytes, and is those bytes parsed |
| Rtss.ReadAppEntry | RtssReader.cs:58 | a slot is read exactly when its 280 bytes lie in the view, and is those bytes parsed |
| Rtss.HeaderAccepted | RtssReader.cs:46 | a header is accepted exactly when its signature is `RTSS` and entry size and array size are nonzero |
| Rtss.SlotOffset | RtssReader.cs:51-59 | slot k starts at `appArrayOffset + k * appEntrySize` |
| Rtss.SlotCount | RtssReader.cs:51-56 | the walk visits `appArraySize / appEntrySize` slots |
| Rtss.SlotOffsetNext | RtssReader.cs:51-59 | each slot starts `appEntrySize` after the previous one |
| Rtss.StrideBound | RtssReader.cs:51-56 | the loop test `pos + appEntrySize <= end` holds at slot k exactly when k < appArraySize / appEntrySize |
| Rtss.ReadableExtend | RtssReader.cs:56-58 | one more slot that fits extends the readable prefix |
| Rtss.UnreadableFrom | RtssReader.cs:56-58 | one slot past the view makes the whole walk fail |
| Rtss.Slots | RtssReader.cs:56-59 | the visited slots, in order, slot k read at its offset |
| Rtss.Leader | RtssReader.cs:56-65 | the slot the walk ends up holding is one of the slots visited and is an active process |
| Rtss.Selected | RtssReader.cs:53-64 | the pair held after the walk is the leader's frame rate and frame time, or (0, 0) when there is no leader |
| Rtss.Step | RtssReader.cs:60-64 | a slot replaces the held pair exactly when its process id is nonzero and its frame rate is greater than the held one |
| Rtss.SelectedStep | RtssReader.cs:60-64 | one more slot changes the selected frame rate and frame time exactly as the loop body does |
| Rtss.WalkStep | RtssReader.cs:56-64 | reading slot k extends the readable prefix and steps the selection over it |
| Rtss.WalkSlots | RtssReader.cs:51-65 | the loop fails exactly when a visited slot runs past the view, and otherwise ends with the selection over all visited slots |
| Rtss.EmitReadings | RtssReader.cs:67-71 | the method builds the dictionary that Emit describes for the selected pair |
| Rtss.Emit | RtssReader.cs:67-71 | `rtss_fps` is the truncated best frame rate when it is positive, with `rtss_frametime_ms` beside it when the frame time is positive too |
| Rtss.TryRead | RtssReader.cs:38-76 | the decoder returns ReadFrameRate: null for a missing or rejected header, a slot past the view, or nothing to publish |
| Rtss.ReadFrameRate | RtssReader.cs:38-76 | null for an unreadable or rejected header or a visited slot past the view, and null when nothing is emitted; otherwise the emitted dictionary |
| RtssProperties.LeaderIsEarliestMax | RtssReader.cs:53-65 | no slot is selected exactly when no active slot has a positive frame rate; otherwise the selected slot has the highest frame rate and no earlier active slot ties it |
| RtssProperties.SelectedPositiveIffCandidate | RtssReader.cs:53-67 | the best frame rate is positive exactly when some active slot has a positive frame rate |
| RtssProperties.EarliestMaxUnique | RtssReader.cs:64 | at most one slot is the earliest with the highest frame rate, so the selection is determined |
| RtssProperties.InactiveSlotsIgnored | RtssReader.cs:60 | whatever a slot with process id 0 contains, the selection does not change |
| RtssProperties.FrameRateExample | RtssReader.cs:56-69 | active slots at 0, about 144.9 and about 60.2 fps select the second and publish `rtss_fps = 144` |
| RtssProperties.EmitShape | RtssReader.cs:67-73 | `rtss_fps` is published exactly when the best frame rate is positive, `rtss_frametime_ms` only beside it when the frame time is positive too, each truncated and non-negative |
| RtssProperties.ReadFrameRateSelects | RtssReader.cs:45-75 | a non-null result means an accepted header and readable slots, and is what the selection over them emits |
| RtssProperties.DefinedIffCandidate | RtssReader.cs:46-73 | with an accepted header and readable slots, the result is non-null exactly when some active slot has a positive frame rate |
| RtssProperties.ReportsEarliestMax | RtssReader.cs:56-73 | a non-null result reports the earliest slot with the highest frame rate: its truncated frame rate, and its truncated frame time exactly when that is positive, under no other keys |
| RtssAsWritten.RefusedAppEntry | RtssReader.cs:58 | the generic read of the slot struct, which holds a `string` field, fails at every position of every view |
| RtssAsWritten.WalkFrom | RtssReader.cs:56-65 | the walk with a given slot read: null at the first failed read, otherwise the pair stepped over every visited slot |
| RtssAsWritten.ReadFrameRateAsWritten | RtssReader.cs:38-76 | TryRead with the refused slot read |
| RtssAsWritten.AsWrittenAlwaysNull | RtssReader.cs:38-76 | as written, TryRead returns null for every view |
| RtssAsWritten.AsWrittenLosesReadings | RtssReader.cs:38-76 | every view on which the intended decoder publishes a reading gets null as written |

## Left out

- Opening the segment (`MemoryMappedFile.OpenExisting`, `CreateViewAccessor`) is not modelled. The view is a parameter, and a missing segment is the caller's null.
- Concurrent writes by the producer while the view is read are not modelled. The view is one immutable snapshot.
- `Encoding.UTF8.GetString`, with its fallback to `Encoding.Default`, is foreign library code. Utf8Z takes it as a `Decoder` parameter, assumed total as the fallback makes it.
- Text.LowerChar: `ToLowerInvariant` is modelled on ASCII letters only, because Unicode case mapping is library data outside the model.
- Text.ToLower: it lowercases with Text.LowerChar, so it is ASCII-only for the same reason.
- Text.KeyChar: `char.IsLetterOrDigit` is modelled on ASCII letters and digits only, for the same reason.
- The dictionaries use `StringComparer.OrdinalIgnoreCase`, which the model does not capture. Every key the decoders write is lowercase ASCII within the model, so ordinal equality agrees with it there.
- Single.TruncateToInt64: out-of-range values saturate and NaN gives 0. This is the conversion rule of .NET 9 and later; earlier runtimes leave the result unspecified.
- Afterburner.ReadSensors: the loop counter `i` is an `int` compared with the `uint` `entryCount` (AfterburnerReader.cs:56), while the model counts with unbounded integers. For an `entryCount` of 2^31 or more, `i` wraps to a negative value and stays below `entryCount`, so the walk goes on until a read runs past the view and the decoder returns null. The model returns a dictionary there once all `entryCount` records fit.
- Rtss.ReadAppEntry: the slot struct has a `string` name field (RtssReader.cs:30-31), and the generic accessor `Read<T>` is documented to refuse a struct containing references with an ArgumentException. As written, every slot read at RtssReader.cs:58 throws, and TryRead returns null for every view (see Findings, modelled by RtssAsWritten). ReadAppEntry and the rest of the Rtss module model the evidently intended read: the marshalled 280-byte layout, whatever `appEntrySize` says, so slots may overlap when the stride is smaller.
- Text.Sanitized: Dafny's `char` is a Unicode scalar value, while `foreach (char c in …)` at AfterburnerReader.cs:106 walks UTF-16 code units. A character outside the Basic Multilingual Plane is two surrogates in C#, each replaced by `_`, but one character in the model. For example "A😀B" gives `ab_raw_a__b` in C# and `ab_raw_a_b` in the model.
- Text.IntToString: `gpuIndex.ToString()` (AfterburnerReader.cs:79) uses the current culture's negative sign, which in some cultures is U+2212 or carries a bidirectional mark. The model always writes `-`. Only a negative index is affected, which comes from a `gpu` field of 2^31 or more.
- Header fields that neither decoder uses (`version`, `time`, `gpuCount`, `gpuEntrySize`, `osdEntryOffset`, `osdEntrySize`, `busy`, `headerSize` of RTSS) are parsed but play no further role.
- The record fields `localName`, `localUnits`, `format`, `minLimit`, `maxLimit` and `flags` (and `flags` and `statFrame` of RTSS) are parsed but unused, as in the source.
- MetricsPoller, Main and RefreshNowAction are not part of this model. They schedule the decoders and copy their results into Macro Deck variables.

## Findings

| source | as written | input that shows it | evidently intended | confidence | as-written member | corrected member |
|---|---|---|---|---|---|---|
| RtssReader.cs:58 | `ReadStruct<RTSS_SHARED_MEMORY_APP_ENTRY>` reads a struct with a `string` field, which `Read<T>` refuses with an ArgumentException. The `catch` turns it into null, so TryRead is null on every view | an accepted header with one active slot at 60 fps: null, not `rtss_fps = 60` | read the marshalled 280-byte slot and publish the best active frame rate | not executed; rests on the documented contract of `UnmanagedMemoryAccessor.Read<T>` | RtssAsWritten.AsWrittenAlwaysNull | RtssProperties.ReportsEarliestMax |
