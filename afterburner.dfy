/**
  AfterburnerReader.TryReadSensors: validates the MAHM shared-memory header, walks its
  `entryCount` sensor records and folds them, through MapCommon, into the dictionary of
  published readings; any read past the end of the view yields null (None).
 */
module Afterburner {
  import opened Wrappers
  import opened SharedMemory
  import opened Single
  import opened Text
  import opened Classifier

  /** 'MHAM' read as a little-endian 32-bit number. */
  const Signature: uint32 := 0x4D41484D
  /** sizeof(MAHM_SHARED_MEMORY_HEADER): eight packed 32-bit fields. */
  const HeaderBytes: nat := 32
  /** sizeof(MAHM_SHARED_MEMORY_ENTRY): five 260-byte texts and five 32-bit fields. */
  const EntryBytes: nat := 1320

  datatype Header = Header(
    signature: uint32, version: uint32, headerSize: uint32, entryCount: uint32,
    entrySize: uint32, time: int32, gpuCount: uint32, gpuEntrySize: uint32)

  /** One sensor record; `data`, `minLimit` and `maxLimit` hold the bits of C# floats. */
  datatype Entry = Entry(
    name: TextBuffer, units: TextBuffer, localName: TextBuffer, localUnits: TextBuffer,
    format: TextBuffer, data: uint32, minLimit: uint32, maxLimit: uint32, flags: uint32, gpu: uint32)

  function ParseHeader(b: seq<byte>): Header
    requires |b| == HeaderBytes
  {
    Header(U32At(b, 0), U32At(b, 4), U32At(b, 8), U32At(b, 12),
           U32At(b, 16), Int32Of(U32At(b, 20)), U32At(b, 24), U32At(b, 28))
  }

  function HeaderFields(h: Header): (fields: seq<uint32>)
    ensures |fields| == 8
  {
    [h.signature, h.version, h.headerSize, h.entryCount,
     h.entrySize, Int32Bits(h.time), h.gpuCount, h.gpuEntrySize]
  }

  /** The header bytes a producer writes. */
  function EncodeHeader(h: Header): (b: seq<byte>)
    ensures |b| == HeaderBytes
  {
    PackU32s(HeaderFields(h))
  }

  lemma HeaderRoundTrip(h: Header)
    ensures ParseHeader(EncodeHeader(h)) == h
  {
    var fields := HeaderFields(h);
    PackedFieldAt(fields, 0); PackedFieldAt(fields, 1); PackedFieldAt(fields, 2); PackedFieldAt(fields, 3);
    PackedFieldAt(fields, 4); PackedFieldAt(fields, 5); PackedFieldAt(fields, 6); PackedFieldAt(fields, 7);
  }

  function ParseEntry(b: seq<byte>): Entry
    requires |b| == EntryBytes
  {
    Entry(b[0..260], b[260..520], b[520..780], b[780..1040], b[1040..1300],
          U32At(b, 1300), U32At(b, 1304), U32At(b, 1308), U32At(b, 1312), U32At(b, 1316))
  }

  function EntryFields(e: Entry): (fields: seq<uint32>)
    ensures |fields| == 5
  {
    [e.data, e.minLimit, e.maxLimit, e.flags, e.gpu]
  }

  /** The record bytes a producer writes. */
  function EncodeEntry(e: Entry): (b: seq<byte>)
    ensures |b| == EntryBytes
  {
    e.name + e.units + e.localName + e.localUnits + e.format + PackU32s(EntryFields(e))
  }

  lemma EntryRoundTrip(e: Entry)
    ensures ParseEntry(EncodeEntry(e)) == e
  {
    var b := EncodeEntry(e);
    var fields := EntryFields(e);
    var texts := e.name + e.units + e.localName + e.localUnits + e.format;
    var packed := PackU32s(fields);
    assert b == texts + packed;
    PackedFieldAt(fields, 0); U32AtShift(texts, packed, 0);
    PackedFieldAt(fields, 1); U32AtShift(texts, packed, 4);
    PackedFieldAt(fields, 2); U32AtShift(texts, packed, 8);
    PackedFieldAt(fields, 3); U32AtShift(texts, packed, 12);
    PackedFieldAt(fields, 4); U32AtShift(texts, packed, 16);
    assert b[0..260] == e.name;
    assert b[260..520] == e.units;
    assert b[520..780] == e.localName;
    assert b[780..1040] == e.localUnits;
    assert b[1040..1300] == e.format;
  }

  /** ReadStruct<MAHM_SHARED_MEMORY_HEADER>(0): the header, when the view holds one. */
  function ReadHeader(view: seq<byte>): (r: Option<Header>)
    ensures r.Some? <==> HeaderBytes <= |view|
    ensures r.Some? ==> r.value == ParseHeader(view[..HeaderBytes])
  {
    match ReadStruct(view, 0, HeaderBytes)
    case None => None
    case Some(b) => assert b == view[..HeaderBytes]; Some(ParseHeader(b))
  }

  /** ReadStruct<MAHM_SHARED_MEMORY_ENTRY>(pos): the record at `pos`, when it fits in the view. */
  function ReadEntry(view: seq<byte>, pos: int): (r: Option<Entry>)
    ensures r.Some? <==> 0 <= pos && pos + EntryBytes <= |view|
    ensures r.Some? ==> r.value == ParseEntry(view[pos..pos + EntryBytes])
  {
    match ReadStruct(view, pos, EntryBytes)
    case None => None
    case Some(b) => assert b == view[pos..pos + EntryBytes]; Some(ParseEntry(b))
  }

  predicate HeaderAccepted(h: Header)
  {
    h.signature == Signature && h.entryCount != 0 && h.entrySize != 0
  }

  /** Where record `i` starts: after the header, `i` strides of `entrySize`. */
  function RecordOffset(h: Header, i: nat): nat
  {
    h.headerSize + i * h.entrySize
  }

  lemma RecordOffsetNext(h: Header, i: nat)
    ensures RecordOffset(h, i + 1) == RecordOffset(h, i) + h.entrySize
  {
    assert (i + 1) * h.entrySize == i * h.entrySize + h.entrySize;
  }

  /** The first `n` records can all be read in full. */
  predicate RecordsReadable(view: seq<byte>, h: Header, n: nat)
  {
    forall i :: 0 <= i < n ==> RecordOffset(h, i) + EntryBytes <= |view|
  }

  lemma ReadableExtend(view: seq<byte>, h: Header, n: nat)
    requires RecordsReadable(view, h, n) && RecordOffset(h, n) + EntryBytes <= |view|
    ensures RecordsReadable(view, h, n + 1)
  {
  }

  lemma UnreadableFrom(view: seq<byte>, h: Header, i: nat, n: nat)
    requires i < n && RecordOffset(h, i) + EntryBytes > |view|
    ensures !RecordsReadable(view, h, n)
  {
  }

  function RecordAt(view: seq<byte>, h: Header, i: nat): Entry
    requires RecordOffset(h, i) + EntryBytes <= |view|
  {
    ReadEntry(view, RecordOffset(h, i)).value
  }

  /** The name a record is classified by. */
  function SensorName(e: Entry, decode: Decoder): string
  {
    Utf8Z(e.name, decode)
  }

  /** A record whose name is empty or white space is skipped. */
  predicate Skipped(e: Entry, decode: Decoder)
  {
    IsNullOrWhiteSpace(SensorName(e, decode))
  }

  /** What one record does to the dictionary: nothing for a blank name, else MapCommon's
      effect for its name, units, reading and GPU index. */
  function RecordEffect(e: Entry, decode: Decoder): Effect
  {
    if Skipped(e, decode) then Skip
    else EffectOf(SensorName(e, decode), Utf8Z(e.units, decode), FromBits(e.data), Int32Of(e.gpu))
  }

  /** The effects of the first `n` records, in order. */
  function Effects(view: seq<byte>, h: Header, n: nat, decode: Decoder): (effs: seq<Effect>)
    requires RecordsReadable(view, h, n)
    ensures |effs| == n
    ensures forall j | 0 <= j < n :: effs[j] == RecordEffect(RecordAt(view, h, j), decode)
  {
    if n == 0 then [] else Effects(view, h, n - 1, decode) + [RecordEffect(RecordAt(view, h, n - 1), decode)]
  }

  /** The dictionary after applying `effs` in order to an empty one. */
  function Replay(effs: seq<Effect>): map<string, int>
  {
    if |effs| == 0 then map[] else Apply(Replay(effs[..|effs| - 1]), effs[|effs| - 1])
  }

  /** One more record extends the replay by its effect. */
  lemma ReplayStep(view: seq<byte>, h: Header, n: nat, decode: Decoder)
    requires RecordsReadable(view, h, n + 1)
    ensures Replay(Effects(view, h, n + 1, decode))
         == Apply(Replay(Effects(view, h, n, decode)), RecordEffect(RecordAt(view, h, n), decode))
  {
    ReplaySnoc(Effects(view, h, n, decode), RecordEffect(RecordAt(view, h, n), decode));
  }

  /** Replaying one more effect applies it to the replay so far. */
  lemma ReplaySnoc(effs: seq<Effect>, eff: Effect)
    ensures Replay(effs + [eff]) == Apply(Replay(effs), eff)
  {
    assert (effs + [eff])[..|effs|] == effs;
  }

  /** What TryReadSensors returns: None when the header cannot be read or is rejected, or
      when any of the `entryCount` records runs past the view; otherwise the fold of all of them. */
  function ReadSensors(view: seq<byte>, decode: Decoder): Option<map<string, int>>
  {
    match ReadHeader(view)
    case None => None
    case Some(h) =>
      if !HeaderAccepted(h) || !RecordsReadable(view, h, h.entryCount) then None
      else Some(Replay(Effects(view, h, h.entryCount, decode)))
  }

  /** The body of the record loop: decode the name, skip a blank one, else MapCommon. */
  method AbsorbEntry(bag: map<string, int>, entry: Entry, decode: Decoder) returns (result: map<string, int>)
    ensures result == Apply(bag, RecordEffect(entry, decode))
  {
    var name := ReadUtf8Z(entry.name, decode);
    var units := ReadUtf8Z(entry.units, decode);
    if IsNullOrWhiteSpace(name) {
      return bag;
    }
    result := MapCommon(name, units, FromBits(entry.data), bag, Int32Of(entry.gpu));
  }

  /** The record loop of TryReadSensors: records `0 .. entryCount - 1` at their offsets,
      folded into a fresh dictionary; None as soon as one runs past the view. */
  method ReadRecords(view: seq<byte>, header: Header, decode: Decoder) returns (r: Option<map<string, int>>)
    ensures r.Some? <==> RecordsReadable(view, header, header.entryCount)
    ensures r.Some? ==> r.value == Replay(Effects(view, header, header.entryCount, decode))
  {
    var result: map<string, int> := map[];
    var offset: nat := header.headerSize;
    for i := 0 to header.entryCount
      invariant offset == RecordOffset(header, i)
      invariant RecordsReadable(view, header, i)
      invariant result == Replay(Effects(view, header, i, decode))
    {
      var next := ReadEntry(view, offset);
      if next.None? {
        UnreadableFrom(view, header, i, header.entryCount);
        return None;
      }
      ReadableExtend(view, header, i);
      ReplayStep(view, header, i, decode);
      assert next.value == RecordAt(view, header, i);
      RecordOffsetNext(header, i);
      offset := offset + header.entrySize;
      result := AbsorbEntry(result, next.value, decode);
    }
    return Some(result);
  }

  /** TryReadSensors, with the mapped view given. */
  method TryReadSensors(view: seq<byte>, decode: Decoder) returns (r: Option<map<string, int>>)
    ensures r == ReadSensors(view, decode)
  {
    var read := ReadHeader(view);
    if read.None? {
      return None;
    }
    var header := read.value;
    if header.signature != Signature || header.entryCount == 0 || header.entrySize == 0 {
      return None;
    }
    r := ReadRecords(view, header, decode);
  }
}
