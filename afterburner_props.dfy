/**
  What TryReadSensors publishes, stated over the records of the MAHM segment: when the
  result is null, which keys it holds, and which record's reading each key carries (the
  last matching record for a rule key, the first one for an `ab_raw_` key).

  The walk is first rewritten as a replay of per-record effects, so that the facts about
  the dictionary are proved once, over any sequence of effects.
 */
module AfterburnerProperties {
  import opened Wrappers
  import opened SharedMemory
  import opened Single
  import opened Text
  import opened Classifier
  import opened Afterburner

  // ---------------------------------------------------------------------------
  // Replaying effects

  /** The replay holds exactly the keys some effect writes. */
  lemma {:induction false} ReplayDomain(effs: seq<Effect>, k: string)
    ensures k in Replay(effs) <==> exists j | 0 <= j < |effs| :: Writes(effs[j], k)
  {
    if |effs| > 0 {
      var init := effs[..|effs| - 1];
      ReplayDomain(init, k);
      ApplyEffect(Replay(init), effs[|effs| - 1], k);
      if exists j | 0 <= j < |init| :: Writes(init[j], k) {
        var j :| 0 <= j < |init| && Writes(init[j], k);
        assert Writes(effs[j], k);
      }
      if exists j | 0 <= j < |effs| :: Writes(effs[j], k) {
        var j :| 0 <= j < |effs| && Writes(effs[j], k);
        if j < |init| {
          assert Writes(init[j], k);
        }
      }
    }
  }

  /** An overwritten key holds the value of the LAST effect that overwrites it. */
  lemma {:induction false} ReplayLastOverwrite(effs: seq<Effect>, j: nat, k: string)
    requires j < |effs| && Overwrites(effs[j], k)
    requires forall i | j < i < |effs| :: !Overwrites(effs[i], k)
    ensures k in Replay(effs) && Replay(effs)[k] == effs[j].v
  {
    var init := effs[..|effs| - 1];
    if j == |effs| - 1 {
      ApplyEffect(Replay(init), effs[j], k);
    } else {
      ReplayLastOverwrite(init, j, k);
      ApplyEffect(Replay(init), effs[|effs| - 1], k);
    }
  }

  /** An inserted key that nothing wrote before and nothing overwrites after holds the value
      of that FIRST insertion. */
  lemma {:induction false} ReplayFirstInsert(effs: seq<Effect>, j: nat)
    requires j < |effs| && effs[j].Insert?
    requires forall i | 0 <= i < j :: !Writes(effs[i], effs[j].key)
    requires forall i | j < i < |effs| :: !Overwrites(effs[i], effs[j].key)
    ensures effs[j].key in Replay(effs) && Replay(effs)[effs[j].key] == effs[j].v
  {
    var init := effs[..|effs| - 1];
    var key := effs[j].key;
    if j == |effs| - 1 {
      ReplayDomain(init, key);
      ApplyEffect(Replay(init), effs[j], key);
    } else {
      ReplayFirstInsert(init, j);
      ApplyEffect(Replay(init), effs[|effs| - 1], key);
    }
  }

  /** Keys that carry the `ab_` prefix and values in the 64-bit range. */
  ghost predicate Published(bag: map<string, int>)
  {
    forall k :: k in bag ==> AbPrefixed(k) && Int64Min <= bag[k] <= Int64Max
  }

  ghost predicate EffectPublished(eff: Effect)
  {
    !eff.Skip? ==> (forall k :: Writes(eff, k) ==> AbPrefixed(k)) && Int64Min <= eff.v <= Int64Max
  }

  lemma {:induction false} ReplayPublished(effs: seq<Effect>)
    requires forall j | 0 <= j < |effs| :: EffectPublished(effs[j])
    ensures Published(Replay(effs))
  {
    if |effs| > 0 {
      var init := effs[..|effs| - 1];
      var last := effs[|effs| - 1];
      ReplayPublished(init);
      var r := Replay(effs);
      forall k | k in r ensures AbPrefixed(k) && Int64Min <= r[k] <= Int64Max {
        ApplyEffect(Replay(init), last, k);
      }
    }
  }

  /** A record's effect is published: `ab_` keys, a 64-bit value, and no fallback key among
      the keys a rule assigns. */
  lemma RecordEffectShape(e: Entry, decode: Decoder, other: string)
    ensures EffectPublished(RecordEffect(e, decode))
    ensures !Overwrites(RecordEffect(e, decode), RawKey(other))
    ensures RecordEffect(e, decode).Skip? <==> Skipped(e, decode)
    ensures RecordEffect(e, decode).Insert? ==> RecordEffect(e, decode).key == RawKey(SensorName(e, decode))
  {
    if !Skipped(e, decode) {
      EffectShape(SensorName(e, decode), Utf8Z(e.units, decode), FromBits(e.data), Int32Of(e.gpu), other);
    }
  }

  // ---------------------------------------------------------------------------
  // What TryReadSensors publishes

  /** The header a non-null result was read with. */
  function HeaderOf(view: seq<byte>): Header
    requires HeaderBytes <= |view|
  {
    ParseHeader(view[..HeaderBytes])
  }

  /** A null result unless the header is readable, signed 'MHAM' and has nonzero counts;
      otherwise the result replays the effects of all `entryCount` records. */
  lemma ReadSensorsReplays(view: seq<byte>, decode: Decoder)
    ensures ReadSensors(view, decode).Some? ==>
      && HeaderBytes <= |view|
      && HeaderAccepted(HeaderOf(view))
      && RecordsReadable(view, HeaderOf(view), HeaderOf(view).entryCount)
      && ReadSensors(view, decode).value
         == Replay(Effects(view, HeaderOf(view), HeaderOf(view).entryCount, decode))
  {
    var read := ReadHeader(view);
    if read.Some? {
      assert read.value == HeaderOf(view);
    }
  }

  /** Every published key starts with `ab_`, and every value is a 64-bit integer. */
  lemma PublishedKeysAndValues(view: seq<byte>, decode: Decoder)
    requires ReadSensors(view, decode).Some?
    ensures Published(ReadSensors(view, decode).value)
  {
    ReadSensorsReplays(view, decode);
    var h := HeaderOf(view);
    var effs := Effects(view, h, h.entryCount, decode);
    forall j | 0 <= j < |effs| ensures EffectPublished(effs[j]) {
      RecordEffectShape(RecordAt(view, h, j), decode, "");
    }
    ReplayPublished(effs);
  }

  /** A published key is one that some record writes, and every key a record writes is published. */
  lemma PublishedKeysWritten(view: seq<byte>, decode: Decoder, k: string)
    requires ReadSensors(view, decode).Some?
    ensures var h := HeaderOf(view);
      k in ReadSensors(view, decode).value <==>
        exists j | 0 <= j < h.entryCount :: Writes(RecordEffect(RecordAt(view, h, j), decode), k)
  {
    ReadSensorsReplays(view, decode);
    var h := HeaderOf(view);
    var effs := Effects(view, h, h.entryCount, decode);
    ReplayDomain(effs, k);
    if exists j | 0 <= j < |effs| :: Writes(effs[j], k) {
      var j :| 0 <= j < |effs| && Writes(effs[j], k);
      assert Writes(RecordEffect(RecordAt(view, h, j), decode), k);
    }
  }

  /** A rule key holds the reading of the LAST record whose rule assigns it. */
  lemma MatchedKeyHoldsLastReading(view: seq<byte>, decode: Decoder, j: nat, k: string)
    requires ReadSensors(view, decode).Some?
    requires HeaderBytes <= |view| && j < HeaderOf(view).entryCount
    requires Overwrites(RecordEffect(RecordAt(view, HeaderOf(view), j), decode), k)
    requires forall i | j < i < HeaderOf(view).entryCount :: !Overwrites(RecordEffect(RecordAt(view, HeaderOf(view), i), decode), k)
    ensures k in ReadSensors(view, decode).value
    ensures ReadSensors(view, decode).value[k] == RecordEffect(RecordAt(view, HeaderOf(view), j), decode).v
  {
    ReadSensorsReplays(view, decode);
    var h := HeaderOf(view);
    ReplayLastOverwrite(Effects(view, h, h.entryCount, decode), j, k);
  }

  /** An `ab_raw_` key holds the reading of the FIRST record that inserts it. */
  lemma RawKeyHoldsFirstReading(view: seq<byte>, decode: Decoder, j: nat)
    requires ReadSensors(view, decode).Some?
    requires HeaderBytes <= |view| && j < HeaderOf(view).entryCount
    requires RecordEffect(RecordAt(view, HeaderOf(view), j), decode).Insert?
    requires forall i | 0 <= i < j ::
      !Writes(RecordEffect(RecordAt(view, HeaderOf(view), i), decode), RecordEffect(RecordAt(view, HeaderOf(view), j), decode).key)
    ensures var eff := RecordEffect(RecordAt(view, HeaderOf(view), j), decode);
      eff.key in ReadSensors(view, decode).value && ReadSensors(view, decode).value[eff.key] == eff.v
  {
    ReadSensorsReplays(view, decode);
    var h := HeaderOf(view);
    var effs := Effects(view, h, h.entryCount, decode);
    var e := RecordAt(view, h, j);
    RecordEffectShape(e, decode, "");
    forall i | j < i < |effs| ensures !Overwrites(effs[i], effs[j].key) {
      RecordEffectShape(RecordAt(view, h, i), decode, SensorName(e, decode));
    }
    ReplayFirstInsert(effs, j);
  }

  /** Record offsets grow with the index. */
  lemma {:induction false} OffsetMonotone(h: Header, i: nat, j: nat)
    requires i <= j
    ensures RecordOffset(h, i) <= RecordOffset(h, j)
    decreases j - i
  {
    if i < j {
      OffsetMonotone(h, i, j - 1);
      RecordOffsetNext(h, j - 1);
    }
  }

  /** With an accepted header, the result is non-null exactly when the last record fits. */
  lemma DefinedIffLastRecordFits(view: seq<byte>, decode: Decoder)
    requires HeaderBytes <= |view| && HeaderAccepted(HeaderOf(view))
    ensures var h := HeaderOf(view);
      ReadSensors(view, decode).Some? <==> RecordOffset(h, h.entryCount - 1) + EntryBytes <= |view|
  {
    var h := HeaderOf(view);
    var last := h.entryCount - 1;
    if RecordOffset(h, last) + EntryBytes <= |view| {
      forall i | 0 <= i < h.entryCount ensures RecordOffset(h, i) + EntryBytes <= |view| {
        OffsetMonotone(h, i, last);
      }
    }
  }
}
