/**
  RtssReader.TryRead: validates the RTSS shared-memory header, walks the application array
  in strides of `appEntrySize`, keeps the frame rate and frame time of the active entry
  with the highest frame rate, and publishes them as `rtss_fps` and `rtss_frametime_ms`;
  a rejected header, a read past the view or nothing to publish yields null (None).
 */
module Rtss {
  import opened Wrappers
  import opened SharedMemory
  import opened Single
  import opened Text

  /** 'RTSS' read as a little-endian 32-bit number. */
  const Signature: uint32 := 0x53535452
  /** sizeof(RTSS_SHARED_MEMORY_HEADER): nine packed 32-bit fields. */
  const HeaderBytes: nat := 36
  /** The size of RTSS_SHARED_MEMORY_APP_ENTRY: a process id, a 260-byte name and four 32-bit fields. */
  const AppEntryBytes: nat := 280

  const FpsKey: string := "rtss_fps"
  const FrameTimeKey: string := "rtss_frametime_ms"

  datatype Header = Header(
    signature: uint32, version: uint32, headerSize: uint32, appEntrySize: uint32,
    appArrayOffset: uint32, appArraySize: uint32, osdEntryOffset: uint32, osdEntrySize: uint32, busy: uint32)

  /** One application slot; `statFramerate` and `statFrameTime` hold the bits of C# floats. */
  datatype AppEntry = AppEntry(
    processId: uint32, name: TextBuffer, flags: uint32, statFrame: uint32,
    statFramerate: uint32, statFrameTime: uint32)

  function HeaderFields(h: Header): (fields: seq<uint32>)
    ensures |fields| == 9
  {
    [h.signature, h.version, h.headerSize, h.appEntrySize, h.appArrayOffset,
     h.appArraySize, h.osdEntryOffset, h.osdEntrySize, h.busy]
  }

  function ParseHeader(b: seq<byte>): Header
    requires |b| == HeaderBytes
  {
    Header(U32At(b, 0), U32At(b, 4), U32At(b, 8), U32At(b, 12), U32At(b, 16),
           U32At(b, 20), U32At(b, 24), U32At(b, 28), U32At(b, 32))
  }

  /** The header bytes a producer writes. */
  function EncodeHeader(h: Header): (b: seq<byte>)
    ensures |b| == HeaderBytes
  {
    PackU32s(HeaderFields(h))
  }

  lemma HeaderRoundTrip(h: Header)
    ensures ParseHeader(EncodeHeader(h)) == h
  {
    var fields := HeaderFields(h);
    PackedFieldAt(fields, 0); PackedFieldAt(fields, 1); PackedFieldAt(fields, 2);
    PackedFieldAt(fields, 3); PackedFieldAt(fields, 4); PackedFieldAt(fields, 5);
    PackedFieldAt(fields, 6); PackedFieldAt(fields, 7); PackedFieldAt(fields, 8);
  }

  function ParseAppEntry(b: seq<byte>): AppEntry
    requires |b| == AppEntryBytes
  {
    AppEntry(U32At(b, 0), b[4..264], U32At(b, 264), U32At(b, 268), U32At(b, 272), U32At(b, 276))
  }

  function StatFields(e: AppEntry): (fields: seq<uint32>)
    ensures |fields| == 4
  {
    [e.flags, e.statFrame, e.statFramerate, e.statFrameTime]
  }

  /** The slot bytes a producer writes. */
  function EncodeAppEntry(e: AppEntry): (b: seq<byte>)
    ensures |b| == AppEntryBytes
  {
    U32Bytes(e.processId) + e.name + PackU32s(StatFields(e))
  }

  lemma AppEntryRoundTrip(e: AppEntry)
    ensures ParseAppEntry(EncodeAppEntry(e)) == e
  {
    var b := EncodeAppEntry(e);
    var fields := StatFields(e);
    var head := U32Bytes(e.processId) + e.name;
    var packed := PackU32s(fields);
    assert b == head + packed;
    assert b[..4] == U32Bytes(e.processId);
    U32RoundTrip(e.processId);
    assert b[4..264] == e.name;
    PackedFieldAt(fields, 0); U32AtShift(head, packed, 0);
    PackedFieldAt(fields, 1); U32AtShift(head, packed, 4);
    PackedFieldAt(fields, 2); U32AtShift(head, packed, 8);
    PackedFieldAt(fields, 3); U32AtShift(head, packed, 12);
  }

  /** ReadStruct<RTSS_SHARED_MEMORY_HEADER>(0): the header, when the view holds one. */
  function ReadHeader(view: seq<byte>): (r: Option<Header>)
    ensures r.Some? <==> HeaderBytes <= |view|
    ensures r.Some? ==> r.value == ParseHeader(view[..HeaderBytes])
  {
    match ReadStruct(view, 0, HeaderBytes)
    case None => None
    case Some(b) => assert b == view[..HeaderBytes]; Some(ParseHeader(b))
  }

  /** ReadStruct<RTSS_SHARED_MEMORY_APP_ENTRY>(pos): the slot at `pos`, when it fits in the view. */
  function ReadAppEntry(view: seq<byte>, pos: int): (r: Option<AppEntry>)
    ensures r.Some? <==> 0 <= pos && pos + AppEntryBytes <= |view|
    ensures r.Some? ==> r.value == ParseAppEntry(view[pos..pos + AppEntryBytes])
  {
    match ReadStruct(view, pos, AppEntryBytes)
    case None => None
    case Some(b) => assert b == view[pos..pos + AppEntryBytes]; Some(ParseAppEntry(b))
  }

  predicate HeaderAccepted(h: Header)
  {
    h.signature == Signature && h.appEntrySize != 0 && h.appArraySize != 0
  }

  // ---------------------------------------------------------------------------
  // The strided walk over the application array

  /** Where slot `k` starts. */
  function SlotOffset(h: Header, k: nat): nat
  {
    h.appArrayOffset + k * h.appEntrySize
  }

  /** The `end` of the walk: one past the application array. */
  function ArrayEnd(h: Header): nat
  {
    h.appArrayOffset + h.appArraySize
  }

  /** How many slots the walk visits. */
  function SlotCount(h: Header): nat
    requires h.appEntrySize != 0
  {
    h.appArraySize / h.appEntrySize
  }

  lemma SlotOffsetNext(h: Header, k: nat)
    ensures SlotOffset(h, k + 1) == SlotOffset(h, k) + h.appEntrySize
  {
    assert (k + 1) * h.appEntrySize == k * h.appEntrySize + h.appEntrySize;
  }

  lemma MulMonotone(a: nat, b: nat, s: nat)
    requires a <= b
    ensures a * s <= b * s
  {
    assert b * s == a * s + (b - a) * s;
  }

  /** The loop test `pos + appEntrySize <= end` holds at slot `k` exactly when `k` is below
      `appArraySize / appEntrySize`: the walk visits that many slots and no more. */
  lemma StrideBound(h: Header, k: nat)
    requires h.appEntrySize != 0
    ensures SlotOffset(h, k) + h.appEntrySize <= ArrayEnd(h) <==> k < SlotCount(h)
  {
    var s: int, a: int := h.appEntrySize, h.appArraySize;
    var q := a / s;
    assert q * s <= a < (q + 1) * s;
    SlotOffsetNext(h, k);
    if k < q {
      MulMonotone(k + 1, q, s);
    } else {
      MulMonotone(q + 1, k + 1, s);
    }
  }

  /** The first `n` slots can all be read in full (280 bytes each, whatever the stride). */
  predicate SlotsReadable(view: seq<byte>, h: Header, n: nat)
  {
    forall k :: 0 <= k < n ==> SlotOffset(h, k) + AppEntryBytes <= |view|
  }

  lemma ReadableExtend(view: seq<byte>, h: Header, n: nat)
    requires SlotsReadable(view, h, n) && SlotOffset(h, n) + AppEntryBytes <= |view|
    ensures SlotsReadable(view, h, n + 1)
  {
  }

  lemma UnreadableFrom(view: seq<byte>, h: Header, k: nat, n: nat)
    requires k < n && SlotOffset(h, k) + AppEntryBytes > |view|
    ensures !SlotsReadable(view, h, n)
  {
  }

  function SlotAt(view: seq<byte>, h: Header, k: nat): AppEntry
    requires SlotOffset(h, k) + AppEntryBytes <= |view|
  {
    ReadAppEntry(view, SlotOffset(h, k)).value
  }

  /** The first `n` slots, in order. */
  function Slots(view: seq<byte>, h: Header, n: nat): (es: seq<AppEntry>)
    requires SlotsReadable(view, h, n)
    ensures |es| == n
    ensures forall k | 0 <= k < n :: es[k] == SlotAt(view, h, k)
  {
    if n == 0 then [] else Slots(view, h, n - 1) + [SlotAt(view, h, n - 1)]
  }

  // ---------------------------------------------------------------------------
  // The selection

  predicate Active(e: AppEntry)
  {
    e.processId != 0
  }

  function Fps(e: AppEntry): Float
  {
    FromBits(e.statFramerate)
  }

  function FrameTime(e: AppEntry): Float
  {
    FromBits(e.statFrameTime)
  }

  /** The slot the walk ends up holding: a later active slot takes over when its frame
      rate is strictly greater (`fps > bestFps`) than the one held, starting from 0. */
  function Leader(es: seq<AppEntry>): (k: Option<nat>)
    ensures k.Some? ==> k.value < |es| && Active(es[k.value])
  {
    if |es| == 0 then None
    else
      var prev := Leader(es[..|es| - 1]);
      var held := if prev.None? then Zero else Fps(es[prev.value]);
      var last := es[|es| - 1];
      if Active(last) && Gt(Fps(last), held) then Some(|es| - 1) else prev
  }

  /** The pair (bestFps, bestFt) the walk ends with. */
  datatype Best = Best(fps: Float, frameTime: Float)

  function Selected(es: seq<AppEntry>): Best
  {
    match Leader(es)
    case None => Best(Zero, Zero)
    case Some(k) => Best(Fps(es[k]), FrameTime(es[k]))
  }

  /** The loop body's update: an active slot with a strictly greater frame rate replaces the pair. */
  function Step(b: Best, e: AppEntry): Best
  {
    if Active(e) && Gt(Fps(e), b.fps) then Best(Fps(e), FrameTime(e)) else b
  }

  /** One more slot updates the selected pair exactly as the loop body does. */
  lemma SelectedStep(es: seq<AppEntry>, e: AppEntry)
    ensures Selected(es + [e]) == Step(Selected(es), e)
  {
    assert (es + [e])[..|es|] == es;
  }

  /** Reading slot `k` extends the readable prefix and steps the selection over it. */
  lemma WalkStep(view: seq<byte>, h: Header, k: nat)
    requires SlotsReadable(view, h, k) && SlotOffset(h, k) + AppEntryBytes <= |view|
    ensures SlotsReadable(view, h, k + 1)
    ensures Selected(Slots(view, h, k + 1)) == Step(Selected(Slots(view, h, k)), SlotAt(view, h, k))
  {
    ReadableExtend(view, h, k);
    SelectedStep(Slots(view, h, k), SlotAt(view, h, k));
  }

  // ---------------------------------------------------------------------------
  // The output

  /** The dictionary built after the walk: `rtss_fps` when the best frame rate is positive,
      and `rtss_frametime_ms` beside it when the frame time is positive too. */
  function Emit(b: Best): map<string, int>
  {
    if !Gt(b.fps, Zero) then map[]
    else if Gt(b.frameTime, Zero) then map[FpsKey := TruncateToInt64(b.fps), FrameTimeKey := TruncateToInt64(b.frameTime)]
    else map[FpsKey := TruncateToInt64(b.fps)]
  }

  /** What TryRead returns: None for a missing or rejected header or a slot read past the
      view; otherwise the emitted dictionary, or None when it is empty. */
  function ReadFrameRate(view: seq<byte>): Option<map<string, int>>
  {
    match ReadHeader(view)
    case None => None
    case Some(h) =>
      if !HeaderAccepted(h) || !SlotsReadable(view, h, SlotCount(h)) then None
      else
        var bag := Emit(Selected(Slots(view, h, SlotCount(h))));
        if |bag| > 0 then Some(bag) else None
  }

  /** The walk of TryRead: `pos` runs from `appArrayOffset` in strides of `appEntrySize`
      while a whole stride fits before `end`; inactive slots are skipped. */
  method WalkSlots(view: seq<byte>, header: Header) returns (r: Option<Best>)
    requires HeaderAccepted(header)
    ensures r.Some? <==> SlotsReadable(view, header, SlotCount(header))
    ensures r.Some? ==> r.value == Selected(Slots(view, header, SlotCount(header)))
  {
    var pos: int := header.appArrayOffset;
    var end: int := pos + header.appArraySize;
    var bestFps, bestFt := Zero, Zero;
    ghost var k: nat := 0;
    while pos + header.appEntrySize <= end
      invariant k <= SlotCount(header)
      invariant pos == SlotOffset(header, k) && end == ArrayEnd(header)
      invariant SlotsReadable(view, header, k)
      invariant Best(bestFps, bestFt) == Selected(Slots(view, header, k))
      decreases SlotCount(header) - k
    {
      StrideBound(header, k);
      var next := ReadAppEntry(view, pos);
      if next.None? {
        UnreadableFrom(view, header, k, SlotCount(header));
        return None;
      }
      var entry := next.value;
      assert entry == SlotAt(view, header, k);
      WalkStep(view, header, k);
      SlotOffsetNext(header, k);
      pos := pos + header.appEntrySize;
      k := k + 1;
      if entry.processId == 0 {
        continue;
      }
      var fps := FromBits(entry.statFramerate);
      var ft := FromBits(entry.statFrameTime);
      if Gt(fps, bestFps) {
        bestFps, bestFt := fps, ft;
      }
    }
    StrideBound(header, k);
    return Some(Best(bestFps, bestFt));
  }

  /** TryRead, with the mapped view given. */
  method TryRead(view: seq<byte>) returns (r: Option<map<string, int>>)
    ensures r == ReadFrameRate(view)
  {
    var read := ReadHeader(view);
    if read.None? {
      return None;
    }
    var header := read.value;
    assert header == ParseHeader(view[..HeaderBytes]);
    if header.signature != Signature || header.appEntrySize == 0 || header.appArraySize == 0 {
      return None;
    }
    var best := WalkSlots(view, header);
    if best.None? {
      return None;
    }
    var bag := EmitReadings(best.value);
    return if |bag| > 0 then Some(bag) else None;
  }

  /** The tail of TryRead: the frame rate when positive, then the frame time when both are. */
  method EmitReadings(best: Best) returns (bag: map<string, int>)
    ensures bag == Emit(best)
  {
    bag := map[];
    if Gt(best.fps, Zero) {
      bag := bag[FpsKey := TruncateToInt64(best.fps)];
      if Gt(best.frameTime, Zero) {
        bag := bag[FrameTimeKey := TruncateToInt64(best.frameTime)];
      }
    }
  }
}

/**
  Which slot TryRead reports: the earliest active slot with the highest frame rate, provided
  that rate is positive; inactive slots never matter; and what is then published.
 */
module RtssProperties {
  import opened Wrappers
  import opened SharedMemory
  import opened Single
  import opened Rtss

  /** A slot that can be reported: an active process with a positive frame rate. */
  predicate Candidate(e: AppEntry)
  {
    Active(e) && Gt(Fps(e), Zero)
  }

  /** Slot `k` is a candidate, no active slot has a higher frame rate, and no earlier
      active slot has one at least as high. */
  predicate EarliestMax(es: seq<AppEntry>, k: nat)
  {
    && k < |es|
    && Candidate(es[k])
    && (forall j | 0 <= j < |es| :: Active(es[j]) ==> !Gt(Fps(es[j]), Fps(es[k])))
    && (forall j | 0 <= j < k :: Active(es[j]) ==> !Ge(Fps(es[j]), Fps(es[k])))
  }

  /** The walk reports no slot exactly when there is no candidate, and otherwise the earliest
      slot with the highest frame rate. */
  lemma {:induction false} LeaderIsEarliestMax(es: seq<AppEntry>)
    ensures Leader(es).None? <==> forall j | 0 <= j < |es| :: !Candidate(es[j])
    ensures Leader(es).Some? ==> EarliestMax(es, Leader(es).value)
  {
    if |es| > 0 {
      var n := |es| - 1;
      var init, e := es[..n], es[n];
      assert es == init + [e];
      LeaderIsEarliestMax(init);
      var prev := Leader(init);
      if prev.None? {
        if Candidate(e) {
          forall j | 0 <= j < n && Active(es[j])
            ensures !Gt(Fps(es[j]), Fps(e)) && !Ge(Fps(es[j]), Fps(e))
          {
            assert !Candidate(init[j]);
            GtOrder(Fps(es[j]), Fps(e), Zero);
          }
          GtOrder(Fps(e), Fps(e), Zero);
        } else {
          forall j | 0 <= j < |es| ensures !Candidate(es[j]) {
            if j < n { assert !Candidate(init[j]); }
          }
        }
      } else {
        var k := prev.value;
        var fk := Fps(init[k]);
        assert EarliestMax(init, k);
        if Active(e) && Gt(Fps(e), fk) {
          GtOrder(Fps(e), fk, Zero);
          forall j | 0 <= j < n && Active(es[j])
            ensures !Gt(Fps(es[j]), Fps(e)) && !Ge(Fps(es[j]), Fps(e))
          {
            assert Active(init[j]) && !Gt(Fps(init[j]), fk);
            GtOrder(Fps(es[j]), Fps(e), fk);
          }
          GtOrder(Fps(e), Fps(e), Zero);
        } else {
          assert es[k] == init[k];
          forall j | 0 <= j < |es| && Active(es[j]) ensures !Gt(Fps(es[j]), fk) {
            if j < n { assert Active(init[j]); }
          }
          forall j | 0 <= j < k && Active(es[j]) ensures !Ge(Fps(es[j]), fk) {
            assert Active(init[j]);
          }
        }
      }
    }
  }

  /** The pair the walk ends with has a positive frame rate exactly when some slot is a candidate. */
  lemma SelectedPositiveIffCandidate(es: seq<AppEntry>)
    ensures Gt(Selected(es).fps, Zero) <==> exists j | 0 <= j < |es| :: Candidate(es[j])
  {
    LeaderIsEarliestMax(es);
    if Leader(es).None? {
      GtOrder(Zero, Zero, Zero);
    }
  }

  /** At most one slot is the earliest with the highest frame rate. */
  lemma EarliestMaxUnique(es: seq<AppEntry>, k1: nat, k2: nat)
    requires EarliestMax(es, k1) && EarliestMax(es, k2)
    ensures k1 == k2
  {
    if k1 < k2 {
      GtOrder(Fps(es[k1]), Zero, Zero);
      GtOrder(Fps(es[k2]), Zero, Zero);
    } else if k2 < k1 {
      GtOrder(Fps(es[k1]), Zero, Zero);
      GtOrder(Fps(es[k2]), Zero, Zero);
    }
  }

  /** Whatever an inactive slot (process id 0) holds, the selection does not change. */
  lemma {:induction false} InactiveSlotsIgnored(es: seq<AppEntry>, fs: seq<AppEntry>)
    requires |es| == |fs|
    requires forall j | 0 <= j < |es| :: Active(es[j]) == Active(fs[j])
    requires forall j | 0 <= j < |es| :: Active(es[j]) ==> es[j] == fs[j]
    ensures Leader(es) == Leader(fs)
    ensures Selected(es) == Selected(fs)
  {
    if |es| > 0 {
      var n := |es| - 1;
      var init, finit := es[..n], fs[..n];
      forall j | 0 <= j < n ensures Active(init[j]) == Active(finit[j]) && (Active(init[j]) ==> init[j] == finit[j]) {
        assert init[j] == es[j] && finit[j] == fs[j];
      }
      InactiveSlotsIgnored(init, finit);
      var prev := Leader(init);
      if prev.Some? {
        assert init[prev.value] == finit[prev.value];
      }
      assert Active(es[n]) ==> es[n] == fs[n];
    }
  }

  /** Three active slots at 0, about 144.9 and about 60.2 frames per second: the middle one is
      reported, as 144. */
  lemma FrameRateExample(e0: AppEntry, e1: AppEntry, e2: AppEntry)
    requires Active(e0) && Active(e1) && Active(e2)
    requires Fps(e0) == Zero
    requires Fps(e1).Finite? && 144.0 <= Fps(e1).value < 145.0
    requires Fps(e2).Finite? && 60.0 <= Fps(e2).value < 61.0
    ensures Leader([e0, e1, e2]) == Some(1)
    ensures FpsKey in Emit(Selected([e0, e1, e2])) && Emit(Selected([e0, e1, e2]))[FpsKey] == 144
  {
    assert [e0, e1, e2][..2] == [e0, e1];
    assert [e0, e1][..1] == [e0];
    assert [e0][..0] == [];
  }

  // ---------------------------------------------------------------------------
  // What TryRead publishes

  /** The header a non-null result was read with. */
  function HeaderOf(view: seq<byte>): Header
    requires HeaderBytes <= |view|
  {
    ParseHeader(view[..HeaderBytes])
  }

  /** The published keys: `rtss_fps` always, `rtss_frametime_ms` only beside it, and every
      value a non-negative 64-bit integer. */
  lemma EmitShape(b: Best)
    ensures |Emit(b)| > 0 <==> Gt(b.fps, Zero)
    ensures |Emit(b)| > 0 ==> FpsKey in Emit(b) && Emit(b)[FpsKey] == TruncateToInt64(b.fps)
    ensures FrameTimeKey in Emit(b) <==> Gt(b.fps, Zero) && Gt(b.frameTime, Zero)
    ensures FrameTimeKey in Emit(b) ==> Emit(b)[FrameTimeKey] == TruncateToInt64(b.frameTime)
    ensures forall k | k in Emit(b) :: (k == FpsKey || k == FrameTimeKey) && 0 <= Emit(b)[k] <= Int64Max
  {
    if Gt(b.fps, Zero) {
      TruncatePositive(b.fps);
      assert FpsKey in Emit(b);
      if Gt(b.frameTime, Zero) {
        TruncatePositive(b.frameTime);
      }
    }
  }

  /** A null result unless the header is readable, signed 'RTSS', has a nonzero stride and
      array size and every visited slot fits in the view; otherwise the result is what the
      selection over those slots emits. */
  lemma ReadFrameRateSelects(view: seq<byte>)
    ensures ReadFrameRate(view).Some? ==>
      && HeaderBytes <= |view|
      && HeaderAccepted(HeaderOf(view))
      && SlotsReadable(view, HeaderOf(view), SlotCount(HeaderOf(view)))
      && ReadFrameRate(view).value == Emit(Selected(Slots(view, HeaderOf(view), SlotCount(HeaderOf(view)))))
  {
    var read := ReadHeader(view);
    if read.Some? {
      assert read.value == HeaderOf(view);
    }
  }

  /** With an accepted header whose slots all fit, there is a result exactly when some slot
      is an active process with a positive frame rate. */
  lemma DefinedIffCandidate(view: seq<byte>)
    requires HeaderBytes <= |view|
    requires HeaderAccepted(HeaderOf(view))
    requires SlotsReadable(view, HeaderOf(view), SlotCount(HeaderOf(view)))
    ensures var es := Slots(view, HeaderOf(view), SlotCount(HeaderOf(view)));
      ReadFrameRate(view).Some? <==> exists j | 0 <= j < |es| :: Candidate(es[j])
  {
    var h := HeaderOf(view);
    var es := Slots(view, h, SlotCount(h));
    var bag := Emit(Selected(es));
    assert ReadHeader(view) == Some(h);
    assert ReadFrameRate(view) == if |bag| > 0 then Some(bag) else None;
    SelectedPositiveIffCandidate(es);
    EmitShape(Selected(es));
  }

  /** A result reports the earliest slot with the highest frame rate: its truncated frame
      rate, and its truncated frame time when that is positive. */
  lemma ReportsEarliestMax(view: seq<byte>)
    requires ReadFrameRate(view).Some?
    ensures HeaderBytes <= |view|
    ensures var h := HeaderOf(view);
      SlotsReadable(view, h, SlotCount(h)) &&
      var es := Slots(view, h, SlotCount(h));
      var bag := ReadFrameRate(view).value;
      exists k | 0 <= k < |es| ::
        && EarliestMax(es, k)
        && FpsKey in bag && bag[FpsKey] == TruncateToInt64(Fps(es[k]))
        && (FrameTimeKey in bag <==> Gt(FrameTime(es[k]), Zero))
        && (FrameTimeKey in bag ==> bag[FrameTimeKey] == TruncateToInt64(FrameTime(es[k])))
        && (forall key | key in bag :: key == FpsKey || key == FrameTimeKey)
  {
    ReadFrameRateSelects(view);
    var h := HeaderOf(view);
    var es := Slots(view, h, SlotCount(h));
    LeaderIsEarliestMax(es);
    EmitShape(Selected(es));
    var k := Leader(es).value;
    assert EarliestMax(es, k);
  }
}

/**
  TryRead as written. RTSS_SHARED_MEMORY_APP_ENTRY holds a `string` field, and the generic
  accessor read refuses any struct that contains references (it throws ArgumentException,
  which the `catch` turns into null). The header struct is plain and reads normally.
 */
module RtssAsWritten {
  import opened Wrappers
  import opened SharedMemory
  import opened Single
  import opened Rtss

  /** ReadStruct<RTSS_SHARED_MEMORY_APP_ENTRY>(pos) as written: refused for every view and position. */
  function RefusedAppEntry(view: seq<byte>, pos: int): (r: Option<AppEntry>)
    ensures r.None?
  {
    None
  }

  /** The loop from slot `k` on, holding `best`, reading each slot with `read`; a failed read
      ends TryRead with null. */
  function WalkFrom(view: seq<byte>, h: Header, k: nat, best: Best,
                    read: (seq<byte>, int) -> Option<AppEntry>): Option<Best>
    requires h.appEntrySize != 0
    decreases SlotCount(h) - k
  {
    if k >= SlotCount(h) then Some(best)
    else
      match read(view, SlotOffset(h, k))
      case None => None
      case Some(e) => WalkFrom(view, h, k + 1, Step(best, e), read)
  }

  /** What TryRead returns as written. */
  function ReadFrameRateAsWritten(view: seq<byte>): Option<map<string, int>>
  {
    match ReadHeader(view)
    case None => None
    case Some(h) =>
      if !HeaderAccepted(h) then None
      else
        match WalkFrom(view, h, 0, Best(Zero, Zero), RefusedAppEntry)
        case None => None
        case Some(b) =>
          var bag := Emit(b);
          if |bag| > 0 then Some(bag) else None
  }

  /** As written, TryRead returns null for every view: a rejected header is null, a walk with
      no slot publishes nothing, and the first slot read throws. */
  lemma AsWrittenAlwaysNull(view: seq<byte>)
    ensures ReadFrameRateAsWritten(view) == None
  {
    match ReadHeader(view)
    case None =>
    case Some(h) =>
      if HeaderAccepted(h) && SlotCount(h) == 0 {
        GtOrder(Zero, Zero, Zero);
        assert Emit(Best(Zero, Zero)) == map[];
      }
  }

  /** Every view on which the intended decoder publishes a reading loses it as written. */
  lemma AsWrittenLosesReadings(view: seq<byte>)
    requires ReadFrameRate(view).Some?
    ensures ReadFrameRateAsWritten(view) != ReadFrameRate(view)
  {
    AsWrittenAlwaysNull(view);
  }
}
