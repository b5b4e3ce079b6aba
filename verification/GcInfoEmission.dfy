/** The emitter: it hands out slot ids and reports slot states to the GC-info encoder, whose view
    is kept as the sequences of calls made. */
module GcInfoEmission {
  import opened GcLiveness
  import opened GcSlots
  import GcTypes

  /** The bit vector holds exactly this set. */
  ghost predicate Holds(bits: seq<bool>, s: set<nat>)
  {
    && (forall i :: 0 <= i < |bits| ==> (bits[i] <==> i in s))
    && (forall i :: i in s ==> i < |bits|)
  }

  function Resize(bits: seq<bool>, size: nat): seq<bool>
    requires size >= |bits|
  {
    bits + seq(size - |bits|, _ => false)
  }

  /** The ids marked after the first i locations of a record. */
  ghost function Marked(t: SlotTable, locations: seq<Location>, i: nat): set<nat>
    requires i <= |locations|
  {
    SlotsOf(TrackLocations(t, locations[..i]).slotMap, LiveOffsets(locations[..i]))
  }

  /** An indirect location marks its id and leaves the ids of earlier offsets alone. */
  lemma IndirectStep(t: SlotTable, locations: seq<Location>, i: nat)
    requires t.Valid() && t.Open() && t.Tracks(LiveOffsets(locations)) && i < |locations| && locations[i].Indirect?
    ensures var now, o := TrackLocations(t, locations[..i]), locations[i].offset;
            && now.Valid() && now.Open() && (o in now.slotMap ==> now.IsTracked(now.slotMap[o]))
            && TrackLocations(t, locations[..i+1]) == now.AddTracked(o)
            && Marked(t, locations, i + 1) == Marked(t, locations, i) + {now.AddTracked(o).slotMap[o]}
  {
    var now, o := TrackLocations(t, locations[..i]), locations[i].offset;
    PrefixStaysValid(t, locations, i);
    TrackLocationsSnoc(t, locations, i);
    LiveOffsetsSnoc(locations[..i], locations[i]);
    SlotsOfSnoc(now.slotMap, LiveOffsets(locations[..i]), o);
    assert now.AddTracked(o).slotMap == AssignSlot(now.slotMap, o);
  }

  lemma OtherStep(t: SlotTable, locations: seq<Location>, i: nat)
    requires i < |locations| && !locations[i].Indirect?
    ensures TrackLocations(t, locations[..i+1]) == TrackLocations(t, locations[..i])
    ensures Marked(t, locations, i + 1) == Marked(t, locations, i)
  {
    TrackLocationsSnoc(t, locations, i);
    LiveOffsetsSnoc(locations[..i], locations[i]);
  }

  lemma TrackLocationsSnoc(t: SlotTable, locations: seq<Location>, i: nat)
    requires i < |locations|
    ensures locations[..i+1] == locations[..i] + [locations[i]]
    ensures TrackLocations(t, locations[..i+1]) ==
            var now := TrackLocations(t, locations[..i]);
            if locations[i].Indirect? then now.AddTracked(locations[i].offset) else now
  {
    assert locations[..i+1][..i] == locations[..i];
  }

  /** The table, the calls so far and the live set, between two records. */
  datatype Progress = Progress(table: SlotTable, states: seq<Transition>, live: set<nat>) {

    /** The table accepts a record's locations, and every live id has a slot. */
    ghost predicate Ready(locations: seq<Location>) {
      && table.Valid() && table.Open() && table.Tracks(LiveOffsets(locations))
      && forall id :: id in live ==> id < |table.slotMap|
    }
  }

  ghost function Step(p: Progress, record: Record): Progress
  {
    var table := TrackLocations(p.table, record.locations);
    var after := Marked(p.table, record.locations, |record.locations|);
    Progress(table, p.states + Changes(CallSite(record), p.live, after, |table.slotMap|), after)
  }

  ghost function Run(p: Progress, records: seq<Record>): Progress
  {
    if records == [] then p else Step(Run(p, records[..|records| - 1]), records[|records| - 1])
  }

  /** Running record by record is the translation to births and deaths. */
  lemma {:induction false} RunIsTranslation(t: SlotTable, s: seq<Transition>, records: seq<Record>)
    requires t.Valid() && t.Open() && t.Tracks(AllLiveOffsets(records))
    ensures Run(Progress(t, s, {}), records) ==
            Progress(TrackRecords(t, records), s + Emit(t.slotMap, records), LiveAfter(t.slotMap, records))
  {
    if records != [] {
      var n := |records| - 1;
      AllLiveOffsetsPrefix(records, n);
      RunIsTranslation(t, s, records[..n]);
      StepIsTranslation(t, s, records);
    } else {
      assert s + [] == s;
    }
  }

  lemma StepIsTranslation(t: SlotTable, s: seq<Transition>, records: seq<Record>)
    requires t.Valid() && t.Open() && t.Tracks(AllLiveOffsets(records)) && records != []
    ensures var n := |records| - 1;
            var m, init := t.slotMap, records[..n];
            Step(Progress(TrackRecords(t, init), s + Emit(m, init), LiveAfter(m, init)), records[n]) ==
            Progress(TrackRecords(t, records), s + Emit(m, records), LiveAfter(m, records))
  {
    var n := |records| - 1;
    var m, init, locations := t.slotMap, records[..n], records[n].locations;
    RecordsPrefixStaysValid(t, records, n + 1);
    RecordsPrefixStaysValid(t, records, n);
    assert records[..n+1] == records && locations[..|locations|] == locations;
    RecordStep(m, records, n);
    var changes := Changes(CallSite(records[n]), LiveAfter(m, init), LiveAfter(m, records),
                       |AssignRecords(m, records)|);
    assert (s + Emit(m, init)) + changes == s + (Emit(m, init) + changes);
  }

  /** What holds before record k. */
  lemma RunKeepsValid(t: SlotTable, s: seq<Transition>, records: seq<Record>, k: nat)
    requires t.Valid() && t.Open() && t.Tracks(AllLiveOffsets(records)) && k < |records|
    ensures Run(Progress(t, s, {}), records[..k]).Ready(records[k].locations)
    ensures records[..k+1][..k] == records[..k]
  {
    AllLiveOffsetsPrefix(records, k);
    RunIsTranslation(t, s, records[..k]);
    RecordsPrefixStaysValid(t, records, k);
    LiveAfterBelow(t.slotMap, records[..k]);
  }

  lemma MarkedBelow(t: SlotTable, locations: seq<Location>)
    requires t.Valid() && t.Open() && t.Tracks(LiveOffsets(locations))
    ensures |t.slotMap| <= |TrackLocations(t, locations).slotMap|
    ensures forall s :: s in Marked(t, locations, |locations|) ==> s < |TrackLocations(t, locations).slotMap|
  {
    assert locations[..|locations|] == locations;
    forall i | 0 <= i < |locations| && locations[i].Indirect? ensures locations[i].offset in LiveOffsets(locations) {
    }
    TrackLocationsKeepsValid(t, locations, LiveOffsets(locations));
  }

  lemma SlotsOfSnoc(m: SlotMap, listed: set<int>, offset: int)
    requires Dense(m) && listed <= m.Keys
    ensures var m' := AssignSlot(m, offset); SlotsOf(m', listed + {offset}) == SlotsOf(m, listed) + {m'[offset]}
  {
    var m' := AssignSlot(m, offset);
    forall s | s in SlotsOf(m, listed) + {m'[offset]} ensures s in SlotsOf(m', listed + {offset}) {
      if s == m'[offset] {
        assert offset in listed + {offset};
      } else {
        var o :| o in listed && m[o] == s;
        assert o in listed + {offset} && m'[o] == s;
      }
    }
  }

  /** A reported call is two bytes long and ends at the safepoint's return address, in 32-bit arithmetic. */
  predicate CallReported(site: nat, size: nat, r: Record)
  {
    && site == CallSite(r) < TWO_TO_THE_32 && size == 2
    && (site + size) % TWO_TO_THE_32 == r.instructionOffset % TWO_TO_THE_32
  }

  /** The calls of the first n records have been reported. */
  ghost predicate AllReported(sites: seq<nat>, sizes: seq<nat>, records: seq<Record>, n: nat)
  {
    && n <= |records| == |sites| == |sizes|
    && forall k :: 0 <= k < n ==> CallReported(sites[k], sizes[k], records[k])
  }

  /** What a whole run leaves: a valid table, calls that read back at every safepoint and by return address, and a
      slot for every pointer on the stack, of the right kind, and no others. */
  ghost predicate RightRun(t: SlotTable, states: seq<Transition>, records: seq<Record>, allocas: seq<Alloca>,
                           pointerSize: nat)
    requires pointerSize > 0
  {
    && t.Valid() && (forall k :: 0 <= k < |records| ==> ReadsBack(t, states, records, k))
    && (ReturnsOrdered(records) ==> forall k :: 0 <= k < |records| ==> ReadsByReturn(t, states, records, k))
    && (AllClean(allocas, pointerSize) ==> Reports(t.slots, allocas))
  }

  lemma WholeRunIsRight(t: SlotTable, records: seq<Record>, allocas: seq<Alloca>, pointerSize: nat)
    requires pointerSize > 0 && AllEncodable(allocas, pointerSize) && t.Valid()
    requires Fresh(TrackRecords(EMPTY_TABLE, records).slotMap, SlotsOfAllocas(allocas, pointerSize))
    requires t == AddSlots(TrackRecords(EMPTY_TABLE, records), SlotsOfAllocas(allocas, pointerSize))
    ensures RightRun(t, Emit(map[], records), records, allocas, pointerSize)
  {
    SlotsOfAllocasUntracked(allocas, pointerSize);
    WholeRunReads(records, SlotsOfAllocas(allocas, pointerSize));
    if ReturnsOrdered(records) {
      forall k | 0 <= k < |records| ensures ReadsByReturn(t, Emit(map[], records), records, k) {
        ReadsBackByReturn(t, Emit(map[], records), records, k);
      }
    }
    if AllClean(allocas, pointerSize) {
      RunReports(records, allocas, pointerSize);
    }
  }

  class GcInfoEmitter {
    var slotMap: SlotMap
    var firstTrackedSlot: nat
    var numTrackedSlots: nat
    var callSites: array<nat>
    var callSiteSizes: array<nat>

    // The encoder: one entry per GetStackSlotId call, and one per SetSlotState call.
    var encoderSlots: seq<Slot>
    var encoderStates: seq<Transition>

    constructor ()
      ensures Table() == EMPTY_TABLE && encoderStates == []
    {
      slotMap, firstTrackedSlot, numTrackedSlots := map[], 0, 0;
      callSites := new nat[0];
      callSiteSizes := new nat[0];
      encoderSlots, encoderStates := [], [];
    }

    ghost function Table(): SlotTable
      reads this
    {
      SlotTable(slotMap, encoderSlots, firstTrackedSlot, numTrackedSlots)
    }

    predicate IsTrackedSlot(id: nat)
      reads this
      ensures Table().Valid() ==> (IsTrackedSlot(id) <==> id < |encoderSlots| && Untracked !in encoderSlots[id].flags)
    {
      numTrackedSlots > 0 && firstTrackedSlot <= id < firstTrackedSlot + numTrackedSlots
    }

    method GetSlot(offset: int, flags: set<SlotFlag>) returns (id: nat)
      requires Table().Bijective() && offset != INVALID_POINTER_OFFSET && offset !in slotMap
      modifies this`slotMap, this`encoderSlots
      ensures Table() == old(Table()).AddSlot(Slot(offset, flags))
      ensures id == slotMap[offset] == |slotMap| - 1
    {
      id := |encoderSlots|;
      encoderSlots := encoderSlots + [Slot(offset, flags)];
      slotMap := slotMap[offset := id];
    }

    method GetTrackedSlot(offset: int) returns (id: nat)
      requires Table().Bijective() && offset != INVALID_POINTER_OFFSET && offset !in slotMap
      modifies this`slotMap, this`encoderSlots, this`firstTrackedSlot, this`numTrackedSlots
      ensures Table() == old(Table()).AddTracked(offset)
      ensures id == slotMap[offset] == |slotMap| - 1
    {
      id := GetSlot(offset, {Interior});
      numTrackedSlots := numTrackedSlots + 1;
      if numTrackedSlots == 1 {
        firstTrackedSlot := id;
      }
    }

    method GetUntrackedSlot(offset: int, isPinned: bool, isObjectRef: bool) returns (id: nat)
      requires Table().Bijective() && offset != INVALID_POINTER_OFFSET && offset !in slotMap
      modifies this`slotMap, this`encoderSlots
      ensures Table() == old(Table()).AddSlot(Slot(offset, UntrackedFlags(isPinned, isObjectRef)))
      ensures id == slotMap[offset] == |slotMap| - 1
    {
      var flags := {Untracked};
      if isPinned {
        flags := {Untracked, SlotFlag.Pinned};
      } else if !isObjectRef {
        flags := {Untracked, Interior};
      }
      id := GetSlot(offset, flags);
    }

    /** One indirect location: a new offset gets a tracked slot, the bit sets double when the slots
        outgrow them, and the slot's bit is set. */
    method MarkOffset(offset: int, oldLive: seq<bool>, newLive: seq<bool>, ghost marked: set<nat>)
      returns (oldLive': seq<bool>, newLive': seq<bool>)
      requires Table().Valid() && Table().Open() && offset != INVALID_POINTER_OFFSET
      requires offset in slotMap ==> IsTrackedSlot(slotMap[offset])
      requires |slotMap| <= |oldLive| == |newLive| && 0 < |oldLive| && Holds(newLive, marked)
      modifies this`slotMap, this`encoderSlots, this`firstTrackedSlot, this`numTrackedSlots
      ensures Table() == old(Table()).AddTracked(offset)
      ensures |slotMap| <= |oldLive'| == |newLive'| && |oldLive| <= |oldLive'|
      ensures Holds(newLive', marked + {slotMap[offset]})
      ensures oldLive' == Resize(oldLive, |oldLive'|)
    {
      oldLive', newLive' := oldLive, newLive;
      var liveBitSetSize := |oldLive|;
      var id;
      if offset !in slotMap {
        id := GetTrackedSlot(offset);
        if |slotMap| > liveBitSetSize {
          liveBitSetSize := liveBitSetSize + liveBitSetSize;
          assert liveBitSetSize > |oldLive'|;
          oldLive' := Resize(oldLive', liveBitSetSize);
          newLive' := Resize(newLive', liveBitSetSize);
        }
      } else {
        id := slotMap[offset];
      }
      assert IsTrackedSlot(id);
      newLive' := newLive'[id := true];
    }

    /** The loop over one record's locations. */
    method MarkLive(locations: seq<Location>, oldLive: seq<bool>, newLive: seq<bool>)
      returns (oldLive': seq<bool>, newLive': seq<bool>)
      requires Table().Valid() && Table().Open() && Table().Tracks(LiveOffsets(locations))
      requires forall i :: 0 <= i < |locations| ==> Reportable(locations[i])
      requires |slotMap| <= |oldLive| == |newLive| && 0 < |oldLive| && Holds(newLive, {})
      modifies this`slotMap, this`encoderSlots, this`firstTrackedSlot, this`numTrackedSlots
      ensures Table() == TrackLocations(old(Table()), locations)
      ensures |slotMap| <= |oldLive'| == |newLive'| && |oldLive| <= |oldLive'|
      ensures Holds(newLive', Marked(old(Table()), locations, |locations|))
      ensures oldLive' == Resize(oldLive, |oldLive'|)
    {
      oldLive', newLive' := oldLive, newLive;
      ghost var t := Table();
      for i := 0 to |locations|
        invariant Table() == TrackLocations(t, locations[..i])
        invariant |slotMap| <= |oldLive'| == |newLive'| && |oldLive| <= |oldLive'|
        invariant Holds(newLive', Marked(t, locations, i))
        invariant oldLive' == Resize(oldLive, |oldLive'|)
      {
        if locations[i].Indirect? {
          IndirectStep(t, locations, i);
          assert Reportable(locations[i]);
          oldLive', newLive' := MarkOffset(locations[i].offset, oldLive', newLive', Marked(t, locations, i));
        } else {
          OtherStep(t, locations, i);
        }
      }
      assert locations[..|locations|] == locations;
    }

    /** The loop over all slots at the end of a record. */
    method ReportChanges(at: nat, oldLive: seq<bool>, newLive: seq<bool>, ghost before: set<nat>, ghost after: set<nat>)
      returns (oldLive': seq<bool>, newLive': seq<bool>)
      requires |slotMap| <= |oldLive| == |newLive|
      requires Holds(oldLive, before) && Holds(newLive, after)
      requires forall s :: s in before ==> s < |slotMap|
      requires forall s :: s in after ==> s < |slotMap|
      modifies this`encoderStates
      ensures encoderStates == old(encoderStates) + Changes(at, before, after, |slotMap|)
      ensures |oldLive'| == |newLive'| == |oldLive| && Holds(oldLive', after) && Holds(newLive', {})
    {
      oldLive', newLive' := oldLive, newLive;
      var slots := |slotMap|;
      for id := 0 to slots
        invariant |oldLive'| == |newLive'| == |oldLive|
        invariant encoderStates == old(encoderStates) + Changes(at, before, after, id)
        invariant forall i :: 0 <= i < |oldLive| ==> (oldLive'[i] <==> if i < id then i in after else i in before)
        invariant forall i :: 0 <= i < |oldLive| ==> (newLive'[i] <==> i >= id && i in after)
      {
        if !oldLive'[id] && newLive'[id] {
          encoderStates := encoderStates + [Transition(at, id, Live)];
        } else if oldLive'[id] && !newLive'[id] {
          encoderStates := encoderStates + [Transition(at, id, Dead)];
        }
        oldLive' := oldLive'[id := newLive'[id]];
        newLive' := newLive'[id := false];
      }
    }

    /** The emitter and its two bit sets are where a run has got to. */
    ghost predicate Reached(p: Progress, oldLive: seq<bool>, newLive: seq<bool>)
      reads this
    {
      && Table() == p.table && encoderStates == p.states
      && |slotMap| <= |oldLive| == |newLive| && 0 < |oldLive|
      && Holds(oldLive, p.live) && Holds(newLive, {})
    }

    /** One record: mark its locations, then report what changed. */
    method EncodeRecord(record: Record, oldLive: seq<bool>, newLive: seq<bool>, ghost p: Progress)
      returns (oldLive': seq<bool>, newLive': seq<bool>)
      requires Reached(p, oldLive, newLive) && p.Ready(record.locations)
      requires forall i :: 0 <= i < |record.locations| ==> Reportable(record.locations[i])
      modifies this`slotMap, this`encoderSlots, this`firstTrackedSlot, this`numTrackedSlots, this`encoderStates
      ensures Reached(Step(p, record), oldLive', newLive')
    {
      var locations := record.locations;
      MarkedBelow(p.table, locations);
      oldLive', newLive' := MarkLive(locations, oldLive, newLive);
      ghost var after := Marked(p.table, locations, |locations|);
      oldLive', newLive' := ReportChanges(CallSite(record), oldLive', newLive', p.live, after);
    }

    method RecordCallSite(records: seq<Record>, k: nat)
      requires k < |records| && AllReported(callSites[..], callSiteSizes[..], records, k) && callSites != callSiteSizes
      modifies callSites, callSiteSizes
      ensures AllReported(callSites[..], callSiteSizes[..], records, k + 1)
    {
      CallSiteBeforeReturn(records[k]);
      callSites[k] := CallSite(records[k]);
      callSiteSizes[k] := CALL_SITE_SIZE;
    }

    method EncodeTrackedPointers(records: seq<Record>)
      requires Table().Valid() && Table().Open() && AllReportable(records)
      // Untracked slots may come first, as long as the initial bit sets cover them (BitsInRangeExactly)
      // and none of them is listed in a record.
      requires |slotMap| <= INITIAL_BITS && Table().Tracks(AllLiveOffsets(records))
      modifies this
      ensures Table() == TrackRecords(old(Table()), records)
      ensures encoderStates == old(encoderStates) + Emit(old(slotMap), records)
      ensures fresh(callSites) && fresh(callSiteSizes)
      ensures AllReported(callSites[..], callSiteSizes[..], records, |records|)
    {
      callSites := new nat[|records|];
      callSiteSizes := new nat[|records|];
      var oldLive, newLive := Resize([], INITIAL_BITS), Resize([], INITIAL_BITS);
      ghost var t, s := Table(), encoderStates;
      ghost var start := Progress(t, s, {});
      ghost var p := start;
      for k := 0 to |records|
        invariant fresh(callSites) && fresh(callSiteSizes) && callSites != callSiteSizes
        invariant AllReported(callSites[..], callSiteSizes[..], records, k)
        invariant p == Run(start, records[..k]) && Reached(p, oldLive, newLive)
      {
        RecordCallSite(records, k);
        RunKeepsValid(t, s, records, k);
        oldLive, newLive := EncodeRecord(records[k], oldLive, newLive, p);
        p := Step(p, records[k]);
      }
      assert records[..|records|] == records;
      RunIsTranslation(t, s, records);
    }

    /** One slot per GC pointer of the struct. */
    method EncodeGcAggregate(a: Alloca, pointerSize: nat)
      requires pointerSize > 0 && Encodable(a, pointerSize) && !GcTypes.IsGcPointer(a.ty) && GcTypes.IsGcAggregate(a.ty)
      requires Table().Valid() && Fresh(slotMap, SlotsOfAlloca(a, pointerSize))
      modifies this`slotMap, this`encoderSlots
      ensures Table() == AddSlots(old(Table()), SlotsOfAlloca(a, pointerSize))
    {
      var gcPtrOffsets := GcTypes.GetGcPointers(a.ty, pointerSize);
      assert |gcPtrOffsets| > 0;
      ghost var t, slots := Table(), SlotsOfAlloca(a, pointerSize);
      SlotsOfAllocaUntracked(a, pointerSize);
      for i := 0 to |gcPtrOffsets|
        invariant Table() == AddSlots(t, slots[..i])
      {
        FreshStep(t, slots, i);
        var _ := GetUntrackedSlot(a.offset + gcPtrOffsets[i], a.isPinned, true);
      }
      assert slots[..|slots|] == slots;
    }

    /** The slots of all allocations: by SlotsOfAllocasFit one for each pointer they hold, and no others. */
    method EncodeUntrackedPointers(allocas: seq<Alloca>, pointerSize: nat)
      requires pointerSize > 0 && AllEncodable(allocas, pointerSize)
      requires Table().Valid() && Fresh(slotMap, SlotsOfAllocas(allocas, pointerSize))
      modifies this`slotMap, this`encoderSlots
      ensures Table() == AddSlots(old(Table()), SlotsOfAllocas(allocas, pointerSize)) && Table().Valid()
      ensures encoderSlots == old(encoderSlots) + SlotsOfAllocas(allocas, pointerSize)
    {
      ghost var t, parts := Table(), PartsOf(allocas, pointerSize);
      SlotsOfAllocasUntracked(allocas, pointerSize);
      for i := 0 to |allocas|
        invariant Table() == AddSlots(t, Join(parts, i))
      {
        JoinStep(t, parts, i);
        assert Encodable(allocas[i], pointerSize) && parts[i] == SlotsOfAlloca(allocas[i], pointerSize);
        EncodeAlloca(allocas[i], pointerSize);
      }
      AddSlotsKeepsValid(t, SlotsOfAllocas(allocas, pointerSize));
      AddSlotsEffect(t, SlotsOfAllocas(allocas, pointerSize), 0);
    }

    method EncodeAlloca(a: Alloca, pointerSize: nat)
      requires pointerSize > 0 && Encodable(a, pointerSize)
      requires Table().Valid() && Fresh(slotMap, SlotsOfAlloca(a, pointerSize))
      modifies this`slotMap, this`encoderSlots
      ensures Table() == AddSlots(old(Table()), SlotsOfAlloca(a, pointerSize))
    {
      if GcTypes.IsGcPointer(a.ty) {
        assert SlotsOfAlloca(a, pointerSize)[0].offset == a.offset;
        var _ := GetUntrackedSlot(a.offset, a.isPinned, false);
      } else if GcTypes.IsGcAggregate(a.ty) {
        EncodeGcAggregate(a, pointerSize);
      }
    }

    /** A whole run for one function. A reader of what the encoder was told finds, at every safepoint,
        exactly the stack offsets the record lists as live. */
    method EmitGCInfo(records: seq<Record>, allocas: seq<Alloca>, pointerSize: nat, needsPointerReporting: bool)
      requires pointerSize > 0 && Table() == EMPTY_TABLE && encoderStates == []
      requires needsPointerReporting ==> records != [] && AllReportable(records) && AllEncodable(allocas, pointerSize)
      requires needsPointerReporting ==>
                 Fresh(TrackRecords(EMPTY_TABLE, records).slotMap, SlotsOfAllocas(allocas, pointerSize))
      modifies this
      ensures Table().Valid()
      ensures !needsPointerReporting ==> encoderSlots == [] && encoderStates == []
      ensures needsPointerReporting ==>
                && Table() == AddSlots(TrackRecords(EMPTY_TABLE, records), SlotsOfAllocas(allocas, pointerSize))
                && RightRun(Table(), encoderStates, records, allocas, pointerSize)
                && AllReported(callSites[..], callSiteSizes[..], records, |records|)
    {
      if needsPointerReporting {
        EncodePointers(records, allocas, pointerSize);
        WholeRunIsRight(Table(), records, allocas, pointerSize);
      }
    }

    /** First the tracked pointers, then the untracked ones. */
    method EncodePointers(records: seq<Record>, allocas: seq<Alloca>, pointerSize: nat)
      requires pointerSize > 0 && Table() == EMPTY_TABLE && encoderStates == []
      requires AllReportable(records) && AllEncodable(allocas, pointerSize)
      requires Fresh(TrackRecords(EMPTY_TABLE, records).slotMap, SlotsOfAllocas(allocas, pointerSize))
      modifies this
      ensures Table() == AddSlots(TrackRecords(EMPTY_TABLE, records), SlotsOfAllocas(allocas, pointerSize))
      ensures Table().Valid() && encoderStates == Emit(map[], records)
      ensures AllReported(callSites[..], callSiteSizes[..], records, |records|)
    {
      EncodeTrackedPointers(records);
      TrackRecordsKeepsValid(EMPTY_TABLE, records, AllLiveOffsets(records));
      assert encoderStates == Emit(map[], records);
      EncodeUntrackedPointers(allocas, pointerSize);
    }
  }
}
