/**
  MapCommon of the Afterburner decoder: the ordered first-match rules that turn a sensor's
  (name, units, value, gpu index) into canonical keys, and the update of the result
  dictionary, including the `ab_raw_` fallback for sensors no rule recognises.
 */
module Classifier {
  import opened Wrappers
  import opened Single
  import opened Text

  /** The test a rule makes on the lowercased units. */
  datatype UnitTest =
    | ContainsAny(subs: seq<string>)             // `lunits.Contains(a) || lunits.Contains(b) ...`
    | ExactlyOrContains(exact: string, sub: string) // `lunits == exact || lunits.Contains(sub)`
    | ContainsOrEmpty(sub: string)               // `lunits.Contains(sub) || string.IsNullOrEmpty(lunits)`

  /** A rule matches when the lowercased name contains one of `names` and the units pass
      `units`. It then writes `ab_gpu<idx>_<metric>` (when `perGpu`) and `aggregate`. */
  datatype Rule = Rule(names: seq<string>, units: UnitTest, metric: string, aggregate: string, perGpu: bool)

  /** The rules, in the order MapCommon tries them. */
  const Rules: seq<Rule> := [
    Rule(["gpu temperature"], ContainsAny(["c"]), "temp_c", "ab_gpu_temp_c", true),
    Rule(["gpu usage"], ContainsAny(["%"]), "usage_pct", "ab_gpu_usage_pct", true),
    Rule(["gpu clock", "core clock"], ContainsAny(["mhz"]), "core_clock_mhz", "ab_gpu_core_clock_mhz", true),
    Rule(["memory clock"], ContainsAny(["mhz"]), "mem_clock_mhz", "ab_mem_clock_mhz", true),
    Rule(["memory usage"], ContainsAny(["mb", "mib"]), "vram_used_mb", "ab_vram_used_mb", true),
    Rule(["fan speed"], ContainsAny(["%"]), "fan_pct", "ab_fan_pct", true),
    Rule(["fan tach", "fan speed"], ContainsAny(["rpm"]), "fan_rpm", "ab_fan_rpm", true),
    Rule(["power"], ExactlyOrContains("w", "watt"), "power_w", "ab_power_w", true),
    Rule(["power"], ContainsAny(["%"]), "power_pct", "ab_power_pct", true),
    Rule(["framerate"], ContainsOrEmpty("fps"), "", "ab_fps", false)
  ]

  const FanPctRule: nat := 5
  const FanRpmRule: nat := 6
  const PowerWattsRule: nat := 7
  const FramerateRule: nat := 9

  predicate ContainsAnyOf(s: string, subs: seq<string>)
  {
    exists i | 0 <= i < |subs| :: Contains(s, subs[i])
  }

  predicate UnitsPass(t: UnitTest, lunits: string)
  {
    match t
    case ContainsAny(subs) => ContainsAnyOf(lunits, subs)
    case ExactlyOrContains(exact, sub) => lunits == exact || Contains(lunits, sub)
    case ContainsOrEmpty(sub) => Contains(lunits, sub) || |lunits| == 0
  }

  predicate RuleMatches(r: Rule, lname: string, lunits: string)
  {
    ContainsAnyOf(lname, r.names) && UnitsPass(r.units, lunits)
  }

  /** The first rule at or after `i` that matches. */
  function FirstMatchFrom(lname: string, lunits: string, i: nat): (k: Option<nat>)
    requires i <= |Rules|
    ensures k.Some? ==> i <= k.value < |Rules| && RuleMatches(Rules[k.value], lname, lunits)
    ensures k.Some? ==> forall j :: i <= j < k.value ==> !RuleMatches(Rules[j], lname, lunits)
    ensures k.None? ==> forall j :: i <= j < |Rules| ==> !RuleMatches(Rules[j], lname, lunits)
    decreases |Rules| - i
  {
    if i == |Rules| then None
    else if RuleMatches(Rules[i], lname, lunits) then Some(i)
    else FirstMatchFrom(lname, lunits, i + 1)
  }

  /** The rule MapCommon applies to a sensor: the first one, in order, that the lowercased
      name and units satisfy; None sends the sensor to the raw fallback. */
  function Classify(name: string, units: string): (k: Option<nat>)
    ensures k.Some? ==> k.value < |Rules| && RuleMatches(Rules[k.value], ToLower(name), ToLower(units))
    ensures k.Some? ==> forall j :: 0 <= j < k.value ==> !RuleMatches(Rules[j], ToLower(name), ToLower(units))
    ensures k.None? <==> forall j :: 0 <= j < |Rules| ==> !RuleMatches(Rules[j], ToLower(name), ToLower(units))
  {
    FirstMatchFrom(ToLower(name), ToLower(units), 0)
  }

  function PerGpuKey(r: Rule, gpuIndex: int): string
  {
    "ab_gpu" + IntToString(gpuIndex) + "_" + r.metric
  }

  /** The keys `add` assigns for a matched rule, in order. */
  function RuleKeys(r: Rule, gpuIndex: int): seq<string>
  {
    if r.perGpu then [PerGpuKey(r, gpuIndex), r.aggregate] else [r.aggregate]
  }

  function RawKey(name: string): string
  {
    "ab_raw_" + SafeKey(name)
  }

  /** The local `add`: assigns `v` to every key in turn (`b[k] = v`), overwriting. */
  function AssignAll(bag: map<string, int>, keys: seq<string>, v: int): (r: map<string, int>)
    ensures forall k :: k in r <==> k in bag || k in keys
    ensures forall k :: k in keys ==> k in r && r[k] == v
    ensures forall k :: k in bag && k !in keys ==> k in r && r[k] == bag[k]
    decreases |keys|
  {
    if |keys| == 0 then bag else AssignAll(bag[keys[0] := v], keys[1..], v)
  }

  /** What handling one sensor does to the dictionary. `Skip` is the decoder's own `continue`
      for a blank name; MapCommon itself either assigns a rule's keys or inserts the fallback. */
  datatype Effect =
    | Skip
    | Assign(keys: seq<string>, v: int)  // `add` each key, overwriting
    | Insert(key: string, v: int)        // the `ab_raw_` key, only when absent

  /** The effect MapCommon has for a sensor. */
  function EffectOf(name: string, units: string, value: Float, gpuIndex: int): (eff: Effect)
  {
    var v := TruncateToInt64(value);
    match Classify(name, units)
    case Some(c) => Assign(RuleKeys(Rules[c], gpuIndex), v)
    case None => Insert(RawKey(name), v)
  }

  /** The dictionary after an effect. */
  function Apply(bag: map<string, int>, eff: Effect): map<string, int>
  {
    match eff
    case Skip => bag
    case Assign(keys, v) => AssignAll(bag, keys, v)
    case Insert(key, v) => if key in bag then bag else bag[key := v]
  }

  /** The effect may put `k` in the dictionary. */
  predicate Writes(eff: Effect, k: string)
  {
    (eff.Assign? && k in eff.keys) || (eff.Insert? && k == eff.key)
  }

  /** The effect sets `k` whether or not it is present. */
  predicate Overwrites(eff: Effect, k: string)
  {
    eff.Assign? && k in eff.keys
  }

  /** Applying an effect adds exactly the keys it writes, sets the ones it overwrites and a
      fresh inserted key to its value, and leaves every other present key alone. */
  lemma ApplyEffect(bag: map<string, int>, eff: Effect, k: string)
    ensures k in Apply(bag, eff) <==> k in bag || Writes(eff, k)
    ensures Overwrites(eff, k) ==> Apply(bag, eff)[k] == eff.v
    ensures eff.Insert? && k == eff.key && k !in bag ==> Apply(bag, eff)[k] == eff.v
    ensures k in bag && !Overwrites(eff, k) ==> Apply(bag, eff)[k] == bag[k]
  {
  }

  /** The keys of an effect start with `ab_`, its value is a 64-bit integer, and a rule never
      assigns a fallback key. */
  lemma EffectShape(name: string, units: string, value: Float, gpuIndex: int, other: string)
    ensures var eff := EffectOf(name, units, value, gpuIndex);
      && !eff.Skip?
      && (forall k :: Writes(eff, k) ==> AbPrefixed(k))
      && Int64Min <= eff.v <= Int64Max
      && !Overwrites(eff, RawKey(other))
  {
    var c := Classify(name, units);
    KeysPrefixed(if c.Some? then c.value else 0, gpuIndex, name);
    KeysPrefixed(if c.Some? then c.value else 0, gpuIndex, other);
  }

  /** The dictionary after MapCommon has handled one sensor. */
  function MapCommonResult(name: string, units: string, value: Float, bag: map<string, int>, gpuIndex: int)
    : (r: map<string, int>)
    ensures Classify(name, units).Some? ==>
      var keys := RuleKeys(Rules[Classify(name, units).value], gpuIndex);
      && (forall k :: k in r <==> k in bag || k in keys)
      && (forall k :: k in keys ==> k in r && r[k] == TruncateToInt64(value))
      && (forall k :: k in bag && k !in keys ==> k in r && r[k] == bag[k])
    ensures Classify(name, units).None? && RawKey(name) in bag ==> r == bag
    ensures Classify(name, units).None? && RawKey(name) !in bag ==>
      r == bag[RawKey(name) := TruncateToInt64(value)]
  {
    Apply(bag, EffectOf(name, units, value, gpuIndex))
  }

  /** MapCommon, updating the dictionary in place: the `add` loop over the matched keys, or
      the check-then-insert of the raw key. */
  method MapCommon(name: string, units: string, value: Float, bag: map<string, int>, gpuIndex: int)
    returns (result: map<string, int>)
    ensures result == MapCommonResult(name, units, value, bag, gpuIndex)
  {
    var v := TruncateToInt64(value);
    result := bag;
    var rule := Classify(name, units);
    if rule.Some? {
      var keys := RuleKeys(Rules[rule.value], gpuIndex);
      for i := 0 to |keys|
        invariant AssignAll(result, keys[i..], v) == AssignAll(bag, keys, v)
      {
        assert keys[i..][1..] == keys[i + 1..];
        result := result[keys[i] := v];
      }
      assert keys[|keys|..] == [];
      return;
    }
    var safe := BuildSafeKey(name);
    var rawKey := "ab_raw_" + safe;
    if rawKey !in result {
      result := result[rawKey := v];
    }
  }

  // ---------------------------------------------------------------------------
  // Properties of the rule order and of the keys

  /** "fan speed" with a "%" unit is always classified before the RPM rule is reached. */
  lemma FanPercentNeverRpm(name: string, units: string)
    requires Contains(ToLower(name), "fan speed") && Contains(ToLower(units), "%")
    ensures Classify(name, units).Some? && Classify(name, units).value <= FanPctRule
  {
    assert RuleMatches(Rules[FanPctRule], ToLower(name), ToLower(units)) by {
      assert Rules[FanPctRule].names[0] == "fan speed";
      assert Rules[FanPctRule].units.subs[0] == "%";
    }
  }

  /** The watts rule fires only for units exactly "w" or containing "watt". */
  lemma PowerWattsUnits(name: string, units: string)
    requires Classify(name, units) == Some(PowerWattsRule)
    ensures ToLower(units) == "w" || Contains(ToLower(units), "watt")
    ensures Contains(ToLower(name), "power")
  {
    var k := PowerWattsRule;
    assert RuleMatches(Rules[k], ToLower(name), ToLower(units));
    assert Rules[k].names == ["power"];
  }

  /** Every rule except framerate writes one per-GPU key and one aggregate key, and the two
      differ; framerate writes only `ab_fps`. */
  lemma RuleKeysShape(k: nat, g: int)
    requires k < |Rules|
    ensures (k == FramerateRule) == (RuleKeys(Rules[k], g) == ["ab_fps"])
    ensures k != FramerateRule ==> |RuleKeys(Rules[k], g)| == 2 && RuleKeys(Rules[k], g)[0] != RuleKeys(Rules[k], g)[1]
  {
    var r := Rules[k];
    if k != FramerateRule {
      var p := PerGpuKey(r, g);
      assert p[6] == IntToString(g)[0];
      assert p[3] == 'g';
      if k < 3 {
        assert r.aggregate[6] == '_';
      } else {
        assert r.aggregate[3] != 'g';
      }
    }
  }

  /** Per-GPU keys of different GPU indices never collide. */
  lemma PerGpuKeyInjective(r: Rule, g: int, g': int)
    requires PerGpuKey(r, g) == PerGpuKey(r, g')
    ensures g == g'
  {
    var s, s' := IntToString(g), IntToString(g');
    var tail := "_" + r.metric;
    assert s + tail == s' + tail by {
      assert PerGpuKey(r, g) == "ab_gpu" + (s + tail);
      assert PerGpuKey(r, g') == "ab_gpu" + (s' + tail);
      assert ("ab_gpu" + (s + tail))[6..] == s + tail;
      assert ("ab_gpu" + (s' + tail))[6..] == s' + tail;
    }
    assert |s| == |s'|;
    assert s == (s + tail)[..|s|] == (s' + tail)[..|s'|] == s';
    IntToStringInjective(g, g');
  }

  /** Every key MapCommon can write carries the `ab_` prefix. */
  predicate AbPrefixed(k: string)
  {
    |k| >= 3 && k[..3] == "ab_"
  }

  /** Each rule's aggregate key starts with `ab_` and goes on with a letter other than `r`. */
  lemma AggregatePrefixed(c: nat)
    requires c < |Rules|
    ensures AbPrefixed(Rules[c].aggregate) && Rules[c].aggregate[3] != 'r'
  {
    var a := Rules[c].aggregate;
    if c < 3 {
      assert a[..4] == "ab_g";
    } else if c < 5 {
      assert a[..4] == "ab_m" || a[..4] == "ab_v";
    } else if c < 7 {
      assert a[..4] == "ab_f";
    } else if c < 9 {
      assert a[..4] == "ab_p";
    } else {
      assert a[..4] == "ab_f";
    }
  }

  /** Rule keys and fallback keys all start with `ab_`, and no rule key is ever a fallback
      key (a rule key goes on with a letter other than the `r` of `ab_raw_`). */
  lemma KeysPrefixed(c: nat, g: int, name: string)
    requires c < |Rules|
    ensures forall k :: k in RuleKeys(Rules[c], g) ==> AbPrefixed(k)
    ensures AbPrefixed(RawKey(name))
    ensures RawKey(name) !in RuleKeys(Rules[c], g)
  {
    AggregatePrefixed(c);
    var p := PerGpuKey(Rules[c], g);
    assert p[..3] == "ab_" && p[3] == 'g';
    var raw := RawKey(name);
    assert raw[..3] == "ab_" && raw[3] == 'r';
  }

  /** A matched sensor overwrites its keys: whatever an earlier sensor stored, the later
      value is the one left (last entry wins). */
  lemma MatchedLastWins(name: string, units: string, value: Float, bag: map<string, int>, gpuIndex: int)
    requires Classify(name, units).Some?
    ensures var r := MapCommonResult(name, units, value, bag, gpuIndex);
      var rule := Rules[Classify(name, units).value];
      rule.aggregate in r && r[rule.aggregate] == TruncateToInt64(value)
  {
    var rule := Rules[Classify(name, units).value];
    assert rule.aggregate in RuleKeys(rule, gpuIndex);
  }

  /** An unmatched sensor whose raw key is already present changes nothing (first one wins). */
  lemma RawFirstWins(name: string, units: string, value: Float, bag: map<string, int>, gpuIndex: int,
                     name': string, units': string, value': Float, gpuIndex': int)
    requires Classify(name, units).None? && Classify(name', units').None?
    requires SafeKey(name) == SafeKey(name')
    ensures var once := MapCommonResult(name, units, value, bag, gpuIndex);
      MapCommonResult(name', units', value', once, gpuIndex') == once
  {
  }
}

module ClassifierExamples {
  import opened Wrappers
  import opened Single
  import opened Text
  import opened Classifier

  /** "GPU Temperature" in "C" at 65.7 on GPU 0 publishes 65 (truncated, not rounded) under
      both the per-GPU and the aggregate key. */
  lemma TemperatureExample()
    ensures MapCommonResult("GPU Temperature", "C", Finite(65.7), map[], 0)
         == map["ab_gpu0_temp_c" := 65, "ab_gpu_temp_c" := 65]
  {
    assert ToLower("GPU Temperature") == "gpu temperature";
    assert ToLower("C") == "c";
    var rule := Rules[0];
    assert OccursAt("gpu temperature", rule.names[0], 0);
    assert OccursAt("c", rule.units.subs[0], 0);
    assert RuleMatches(rule, "gpu temperature", "c");
    assert Classify("GPU Temperature", "C") == Some(0);
    assert IntToString(0) == "0";
    assert PerGpuKey(rule, 0) == "ab_gpu0_temp_c";
    assert RuleKeys(rule, 0) == ["ab_gpu0_temp_c", "ab_gpu_temp_c"];
  }

  /** No rule before the fan-percentage rule names anything that "fan speed" contains. */
  lemma FanSpeedSkipsEarlierRules()
    ensures forall j :: 0 <= j < FanPctRule ==> !RuleMatches(Rules[j], "fan speed", "%")
    ensures forall j :: 0 <= j < FanPctRule ==> !RuleMatches(Rules[j], "fan speed", "rpm")
  {
    forall j | 0 <= j < FanPctRule
      ensures !ContainsAnyOf("fan speed", Rules[j].names)
    {
      var names := Rules[j].names;
      forall i | 0 <= i < |names| ensures !Contains("fan speed", names[i]) {
        assert |names[i]| > 9 || names[i][0] != 'f';
      }
    }
  }

  /** "Fan Speed" in "%" is the fan percentage, never the RPM reading. */
  lemma FanPercentExample()
    ensures Classify("Fan Speed", "%") == Some(FanPctRule)
  {
    assert ToLower("Fan Speed") == "fan speed";
    assert ToLower("%") == "%";
    FanSpeedSkipsEarlierRules();
    assert OccursAt("fan speed", Rules[FanPctRule].names[0], 0);
    assert OccursAt("%", Rules[FanPctRule].units.subs[0], 0);
  }

  /** "Fan Speed" in "RPM" skips the percentage rule and is the RPM reading. */
  lemma FanRpmExample()
    ensures Classify("Fan Speed", "RPM") == Some(FanRpmRule)
  {
    assert ToLower("Fan Speed") == "fan speed";
    assert ToLower("RPM") == "rpm";
    FanSpeedSkipsEarlierRules();
    forall i | 0 <= i <= 2 ensures !OccursAt("rpm", "%", i) {
      assert "rpm"[i..i + 1][0] == "rpm"[i];
    }
    assert !RuleMatches(Rules[FanPctRule], "fan speed", "rpm");
    assert OccursAt("fan speed", Rules[FanRpmRule].names[1], 0);
    assert OccursAt("rpm", Rules[FanRpmRule].units.subs[0], 0);
  }

  /** "Board Power Limit" with no unit matches no rule: it names "power", but its unit is
      neither "w", "watt" nor "%". */
  lemma BoardPowerLimitUnmatched()
    ensures Classify("Board Power Limit", "").None?
  {
    assert ToLower("Board Power Limit") == BoardPowerLimit;
    assert ToLower("") == "";
    GpuRulesMissBoardPowerLimit();
    MemoryRulesMissBoardPowerLimit();
    FanRulesMissBoardPowerLimit();
    assert !UnitsPass(Rules[PowerWattsRule].units, "");
    assert !UnitsPass(Rules[8].units, "");
  }

  const BoardPowerLimit: string := "board power limit"

  /** The GPU rules name "gpu" or "clock", neither of which occurs. */
  lemma GpuRulesMissBoardPowerLimit()
    ensures forall j :: 0 <= j < 3 ==> !ContainsAnyOf(BoardPowerLimit, Rules[j].names)
  {
    NamesLacking(BoardPowerLimit, Rules[0].names, 'g');
    NamesLacking(BoardPowerLimit, Rules[1].names, 'g');
    NamesLacking(BoardPowerLimit, Rules[2].names, 'c');
  }

  /** The memory rules name "memory", which does not occur. */
  lemma MemoryRulesMissBoardPowerLimit()
    ensures !ContainsAnyOf(BoardPowerLimit, Rules[3].names)
    ensures !ContainsAnyOf(BoardPowerLimit, Rules[4].names)
  {
    NamesLacking(BoardPowerLimit, Rules[3].names, 'y');
    NamesLacking(BoardPowerLimit, Rules[4].names, 'y');
  }

  /** The fan and framerate rules all name something with an "f". */
  lemma FanRulesMissBoardPowerLimit()
    ensures !ContainsAnyOf(BoardPowerLimit, Rules[5].names)
    ensures !ContainsAnyOf(BoardPowerLimit, Rules[6].names)
    ensures !ContainsAnyOf(BoardPowerLimit, Rules[FramerateRule].names)
  {
    NamesLacking(BoardPowerLimit, Rules[5].names, 'f');
    NamesLacking(BoardPowerLimit, Rules[6].names, 'f');
    NamesLacking(BoardPowerLimit, Rules[FramerateRule].names, 'f');
  }

  /** A name lacking a character that every listed name has contains none of them. */
  lemma NamesLacking(lname: string, names: seq<string>, c: char)
    requires c !in lname
    requires forall i :: 0 <= i < |names| ==> c in names[i]
    ensures !ContainsAnyOf(lname, names)
  {
    forall i | 0 <= i < |names| ensures !Contains(lname, names[i]) {
      AbsentCharRulesOut(lname, names[i], c);
    }
  }

  lemma BoardPowerLimitSanitized()
    ensures Sanitized("Board Power Limit") == "board_power_limit"
  {
    var name := "Board Power Limit";
    var key := "board_power_limit";
    forall i | 0 <= i < |name| ensures Sanitized(name)[i] == key[i] {
      assert KeyChar(name[i]) == key[i];
    }
  }

  lemma BoardPowerLimitKey()
    ensures SafeKey("Board Power Limit") == "board_power_limit"
  {
    var key := "board_power_limit";
    BoardPowerLimitSanitized();
    assert TrimStart(key) == key;
    assert TrimEnd(key) == key;
  }

  /** An unmatched sensor lands under `ab_raw_<SafeKey(name)>`, and a second sensor of the
      same name, even on another GPU, does not overwrite it. */
  lemma RawExample()
    ensures var once := MapCommonResult("Board Power Limit", "", Finite(250.0), map[], 0);
      && once == map["ab_raw_board_power_limit" := 250]
      && MapCommonResult("Board Power Limit", "", Finite(300.0), once, 1) == once
  {
    BoardPowerLimitUnmatched();
    BoardPowerLimitRawKey();
  }

  lemma BoardPowerLimitRawKey()
    ensures RawKey("Board Power Limit") == "ab_raw_board_power_limit"
  {
    BoardPowerLimitKey();
  }
}
