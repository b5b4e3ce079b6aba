/** The slot table on values: ids are handed out in order to tracked slots, found in stack-map
    records, and to untracked ones, found in stack allocations. */
module GcSlots {
  import opened GcLiveness
  import GcTypes

  datatype SlotFlag = Interior | Pinned | Untracked

  /** One call to the encoder's GetStackSlotId; the id it returns is its position. */
  datatype Slot = Slot(offset: int, flags: set<SlotFlag>)

  datatype Alloca = Alloca(offset: int, ty: GcTypes.Type, isPinned: bool)

  // ---------------------------------------------------------------------------
  // Slots of the stack allocations
  // ---------------------------------------------------------------------------

  function UntrackedFlags(isPinned: bool, isObjectRef: bool): set<SlotFlag>
  {
    if isPinned then {Untracked, Pinned}
    else if !isObjectRef then {Untracked, Interior}
    else {Untracked}
  }

  /** Allocations the untracked pass accepts: their offset was recorded, an aggregate is a
      laid-out struct that the pointer walk finds pointers in. */
  predicate Encodable(a: Alloca, pointerSize: nat)
    requires pointerSize > 0
  {
    && a.offset != INVALID_POINTER_OFFSET
    && (!GcTypes.IsGcPointer(a.ty) && GcTypes.IsGcAggregate(a.ty) ==>
          && a.ty.Struct?
          && GcTypes.WellLaidOut(a.ty, pointerSize)
          && a.ty.size + pointerSize <= TWO_TO_THE_32
          && GcTypes.Walk(a.ty, 0, pointerSize) != [])
  }

  /** What one allocation contributes, from its type: a slot for a GC pointer, one slot per
      pointer found in a GC aggregate, nothing otherwise. */
  function SlotsOfAlloca(a: Alloca, pointerSize: nat): seq<Slot>
    requires pointerSize > 0 && Encodable(a, pointerSize)
  {
    if GcTypes.IsGcPointer(a.ty) then
      [Slot(a.offset, UntrackedFlags(a.isPinned, false))]
    else if GcTypes.IsGcAggregate(a.ty) then
      SlotsAt(a.offset, GcTypes.Walk(a.ty, 0, pointerSize), UntrackedFlags(a.isPinned, true))
    else []
  }

  function SlotsAt(base: int, offsets: seq<nat>, flags: set<SlotFlag>): (slots: seq<Slot>)
    ensures |slots| == |offsets|
    ensures forall i :: 0 <= i < |slots| ==> slots[i] == Slot(base + offsets[i], flags)
  {
    if offsets == [] then []
    else
      var n := |offsets| - 1;
      SlotsAt(base, offsets[..n], flags) + [Slot(base + offsets[n], flags)]
  }

  predicate AllEncodable(allocas: seq<Alloca>, pointerSize: nat)
    requires pointerSize > 0
  {
    forall i :: 0 <= i < |allocas| ==> Encodable(allocas[i], pointerSize)
  }

  function PartsOf(allocas: seq<Alloca>, pointerSize: nat): (parts: seq<seq<Slot>>)
    requires pointerSize > 0 && AllEncodable(allocas, pointerSize)
    ensures |parts| == |allocas| && forall i :: 0 <= i < |parts| ==> parts[i] == SlotsOfAlloca(allocas[i], pointerSize)
  {
    seq(|allocas|, i requires 0 <= i < |allocas| => SlotsOfAlloca(allocas[i], pointerSize))
  }

  /** The first n parts joined. */
  function Join(parts: seq<seq<Slot>>, n: nat): seq<Slot>
    requires n <= |parts|
  {
    if n == 0 then [] else Join(parts, n - 1) + parts[n - 1]
  }

  function SlotsOfAllocas(allocas: seq<Alloca>, pointerSize: nat): seq<Slot>
    requires pointerSize > 0 && AllEncodable(allocas, pointerSize)
  {
    Join(PartsOf(allocas, pointerSize), |allocas|)
  }

  /** What recording an allocation from its type, and nothing else, says about encoding it: the
      assertion that an aggregate has pointers holds unless its only pointers sit in arrays or vectors. */
  lemma AggregateAssertionHolds(a: Alloca, pointerSize: nat)
    requires pointerSize > 0 && a.offset != INVALID_POINTER_OFFSET
    requires a.ty.Struct? && GcTypes.WellLaidOut(a.ty, pointerSize) && a.ty.size + pointerSize <= TWO_TO_THE_32
    ensures Encodable(a, pointerSize) <==> (GcTypes.GcLeaves(a.ty, 0) != [] || !GcTypes.HasGcSequence(a.ty))
  {
    GcTypes.AggregateHasPointers(a.ty, pointerSize);
    GcTypes.WalkHasPointers(a.ty, pointerSize);
  }

  // ---------------------------------------------------------------------------
  // The slot table
  // ---------------------------------------------------------------------------

  /** Stack offset to id, the encoder's slots in id order, and the block of tracked ids. */
  datatype SlotTable = SlotTable(slotMap: SlotMap, slots: seq<Slot>, firstTracked: nat, numTracked: nat) {

    predicate IsTracked(id: nat) {
      numTracked > 0 && firstTracked <= id < firstTracked + numTracked
    }

    /** Ids are exactly 0 up to the number of slots, one per offset. */
    ghost predicate Bijective() {
      && |slotMap| == |slots|
      && (forall o :: o in slotMap ==> slotMap[o] < |slots| && slots[slotMap[o]].offset == o)
      && (forall id :: 0 <= id < |slots| ==> slots[id].offset in slotMap && slotMap[slots[id].offset] == id)
    }

    /** The tracked slots are exactly the block that IsTracked describes. */
    ghost predicate Contiguous() {
      && (numTracked > 0 ==> firstTracked + numTracked <= |slots|)
      && (forall id :: 0 <= id < |slots| ==> (IsTracked(id) <==> Untracked !in slots[id].flags))
    }

    ghost predicate Valid() {
      Bijective() && Contiguous()
    }

    /** A new tracked slot would extend the tracked block. */
    predicate Open() {
      numTracked > 0 ==> firstTracked + numTracked == |slots|
    }

    /** Offsets that already have a slot have a tracked one. */
    ghost predicate Tracks(offsets: set<int>) {
      forall o :: o in offsets && o in slotMap ==> slotMap[o] < |slots| && IsTracked(slotMap[o])
    }

    /** The stack offsets a reader of the encoding finds for some ids. */
    ghost function StackOffsets(ids: set<nat>): set<int> {
      set id | id in ids && id < |slots| :: slots[id].offset
    }

    function AddSlot(slot: Slot): SlotTable {
      this.(slotMap := slotMap[slot.offset := |slots|], slots := slots + [slot])
    }

    function AddTracked(offset: int): SlotTable {
      if offset in slotMap then this
      else
        AddSlot(Slot(offset, {Interior})).(
          numTracked := numTracked + 1,
          firstTracked := if numTracked == 0 then |slots| else firstTracked)
    }
  }

  const EMPTY_TABLE := SlotTable(map[], [], 0, 0)

  function TrackLocations(t: SlotTable, locations: seq<Location>): SlotTable
  {
    if locations == [] then t
    else
      var last := locations[|locations| - 1];
      var t' := TrackLocations(t, locations[..|locations| - 1]);
      if last.Indirect? then t'.AddTracked(last.offset) else t'
  }

  function TrackRecords(t: SlotTable, records: seq<Record>): SlotTable
  {
    if records == [] then t
    else TrackLocations(TrackRecords(t, records[..|records| - 1]), records[|records| - 1].locations)
  }

  function AddSlots(t: SlotTable, slots: seq<Slot>): SlotTable
  {
    if slots == [] then t
    else AddSlots(t, slots[..|slots| - 1]).AddSlot(slots[|slots| - 1])
  }

  /** The slots can be added: valid offsets, no offset twice. */
  ghost predicate Fresh(m: SlotMap, slots: seq<Slot>)
  {
    && (forall i :: 0 <= i < |slots| ==> slots[i].offset != INVALID_POINTER_OFFSET && slots[i].offset !in m)
    && (forall i, j :: 0 <= i < j < |slots| ==> slots[i].offset != slots[j].offset)
  }

  ghost predicate AllUntracked(slots: seq<Slot>)
  {
    forall i :: 0 <= i < |slots| ==> Untracked in slots[i].flags
  }

  lemma AddSlotKeepsBijective(t: SlotTable, slot: Slot)
    requires t.Bijective() && slot.offset !in t.slotMap
    ensures t.AddSlot(slot).Bijective()
  {
  }

  lemma AddTrackedKeepsContiguous(t: SlotTable, offset: int)
    requires t.Contiguous() && t.Open()
    ensures t.AddTracked(offset).Contiguous() && t.AddTracked(offset).Open()
    ensures forall id :: t.IsTracked(id) ==> t.AddTracked(offset).IsTracked(id)
  {
  }

  lemma AddTrackedKeepsValid(t: SlotTable, offset: int, offsets: set<int>)
    requires t.Valid() && t.Open() && t.Tracks(offsets) && offset in offsets
    ensures var t' := t.AddTracked(offset);
            t'.Valid() && t'.Open() && t'.Tracks(offsets) && t'.slotMap == AssignSlot(t.slotMap, offset)
            && t.slots <= t'.slots
  {
    if offset !in t.slotMap {
      AddSlotKeepsBijective(t, Slot(offset, {Interior}));
      AddTrackedKeepsContiguous(t, offset);
    }
  }

  lemma {:induction false} TrackLocationsKeepsValid(t: SlotTable, locations: seq<Location>, offsets: set<int>)
    requires t.Valid() && t.Open() && t.Tracks(offsets)
    requires forall i :: 0 <= i < |locations| && locations[i].Indirect? ==> locations[i].offset in offsets
    ensures var t' := TrackLocations(t, locations);
            t'.Valid() && t'.Open() && t'.Tracks(offsets) && t'.slotMap == AssignLocations(t.slotMap, locations)
            && t.slots <= t'.slots
  {
    if locations != [] {
      var n := |locations| - 1;
      TrackLocationsKeepsValid(t, locations[..n], offsets);
      if locations[n].Indirect? {
        AddTrackedKeepsValid(TrackLocations(t, locations[..n]), locations[n].offset, offsets);
      }
    }
  }

  /** The table between two locations of a record. */
  lemma PrefixStaysValid(t: SlotTable, locations: seq<Location>, i: nat)
    requires t.Valid() && t.Open() && t.Tracks(LiveOffsets(locations)) && i <= |locations|
    ensures var t' := TrackLocations(t, locations[..i]);
            && t'.Valid() && t'.Open() && t'.Tracks(LiveOffsets(locations))
            && Dense(t'.slotMap) && LiveOffsets(locations[..i]) <= t'.slotMap.Keys
    ensures i < |locations| && locations[i].Indirect? ==> locations[i].offset in LiveOffsets(locations)
  {
    forall j | 0 <= j < i && locations[..i][j].Indirect? ensures locations[..i][j].offset in LiveOffsets(locations) {
      assert locations[..i][j] == locations[j];
    }
    TrackLocationsKeepsValid(t, locations[..i], LiveOffsets(locations));
    AssignLocationsKeys(t.slotMap, locations[..i]);
  }

  ghost function AllLiveOffsets(records: seq<Record>): set<int>
  {
    set k, o | 0 <= k < |records| && o in LiveOffsets(records[k].locations) :: o
  }

  /** Tracking keeps the table a bijection with one block of tracked ids, and assigns the ids that
      the translation to births and deaths uses. */
  lemma {:induction false} TrackRecordsKeepsValid(t: SlotTable, records: seq<Record>, offsets: set<int>)
    requires t.Valid() && t.Open() && t.Tracks(offsets) && AllLiveOffsets(records) <= offsets
    ensures var t' := TrackRecords(t, records);
            t'.Valid() && t'.Open() && t'.Tracks(offsets) && t'.slotMap == AssignRecords(t.slotMap, records)
            && t.slots <= t'.slots
  {
    if records != [] {
      var n := |records| - 1;
      AllLiveOffsetsPrefix(records, n);
      forall i | 0 <= i < |records[n].locations| && records[n].locations[i].Indirect?
        ensures records[n].locations[i].offset in offsets
      {
        assert records[n].locations[i].offset in LiveOffsets(records[n].locations);
      }
      TrackRecordsKeepsValid(t, records[..n], offsets);
      TrackLocationsKeepsValid(TrackRecords(t, records[..n]), records[n].locations, offsets);
    }
  }

  lemma AllLiveOffsetsPrefix(records: seq<Record>, k: nat)
    requires k <= |records|
    ensures AllLiveOffsets(records[..k]) <= AllLiveOffsets(records)
  {
    assert forall j :: 0 <= j < k ==> records[..k][j] == records[j];
  }

  /** The table between two records. */
  lemma RecordsPrefixStaysValid(t: SlotTable, records: seq<Record>, k: nat)
    requires t.Valid() && t.Open() && t.Tracks(AllLiveOffsets(records)) && k <= |records|
    ensures var t' := TrackRecords(t, records[..k]);
            && t'.Valid() && t'.Open() && t'.slotMap == AssignRecords(t.slotMap, records[..k]) && Dense(t.slotMap)
            && (k < |records| ==> t'.Tracks(LiveOffsets(records[k].locations)))
  {
    AllLiveOffsetsPrefix(records, k);
    TrackRecordsKeepsValid(t, records[..k], AllLiveOffsets(records));
    if k < |records| {
      assert LiveOffsets(records[k].locations) <= AllLiveOffsets(records);
    }
  }

  lemma AddUntrackedKeepsValid(t: SlotTable, slot: Slot)
    requires t.Valid() && slot.offset !in t.slotMap && Untracked in slot.flags
    ensures t.AddSlot(slot).Valid()
  {
  }

  lemma {:induction false} AddSlotsEffect(t: SlotTable, slots: seq<Slot>, o: int)
    requires forall i :: 0 <= i < |slots| ==> slots[i].offset !in t.slotMap
    ensures AddSlots(t, slots).slots == t.slots + slots
    ensures AddSlots(t, slots).firstTracked == t.firstTracked && AddSlots(t, slots).numTracked == t.numTracked
    ensures o in AddSlots(t, slots).slotMap <==> o in t.slotMap || exists i :: 0 <= i < |slots| && slots[i].offset == o
    ensures o in t.slotMap ==> AddSlots(t, slots).slotMap[o] == t.slotMap[o]
  {
    if slots != [] {
      var n := |slots| - 1;
      AddSlotsEffect(t, slots[..n], o);
      assert slots == slots[..n] + [slots[n]];
      assert forall i :: 0 <= i < n ==> slots[..n][i] == slots[i];
    }
  }

  lemma {:induction false} AddSlotsKeepsValid(t: SlotTable, slots: seq<Slot>)
    requires t.Valid() && Fresh(t.slotMap, slots) && AllUntracked(slots)
    ensures AddSlots(t, slots).Valid()
  {
    if slots != [] {
      var n := |slots| - 1;
      AddSlotsKeepsValid(t, slots[..n]);
      AddSlotsEffect(t, slots[..n], slots[n].offset);
      AddUntrackedKeepsValid(AddSlots(t, slots[..n]), slots[n]);
    }
  }

  lemma SlotsOfAllocaUntracked(a: Alloca, pointerSize: nat)
    requires pointerSize > 0 && Encodable(a, pointerSize)
    ensures AllUntracked(SlotsOfAlloca(a, pointerSize))
  {
  }

  lemma {:induction false} JoinUntracked(parts: seq<seq<Slot>>, n: nat)
    requires n <= |parts| && forall i :: 0 <= i < |parts| ==> AllUntracked(parts[i])
    ensures AllUntracked(Join(parts, n))
  {
    if n > 0 {
      JoinUntracked(parts, n - 1);
    }
  }

  lemma SlotsOfAllocasUntracked(allocas: seq<Alloca>, pointerSize: nat)
    requires pointerSize > 0 && AllEncodable(allocas, pointerSize)
    ensures forall i :: 0 <= i < |allocas| ==> AllUntracked(PartsOf(allocas, pointerSize)[i])
    ensures AllUntracked(SlotsOfAllocas(allocas, pointerSize))
  {
    var parts := PartsOf(allocas, pointerSize);
    forall i | 0 <= i < |allocas| ensures AllUntracked(parts[i]) {
      SlotsOfAllocaUntracked(allocas[i], pointerSize);
    }
    JoinUntracked(parts, |parts|);
  }

  /** Part of the way through fresh slots the table is valid and the next slots are still fresh. */
  lemma FreshPrefix(t: SlotTable, slots: seq<Slot>, i: nat)
    requires t.Valid() && Fresh(t.slotMap, slots) && AllUntracked(slots) && i <= |slots|
    ensures AddSlots(t, slots[..i]).Valid()
    ensures Fresh(AddSlots(t, slots[..i]).slotMap, slots[i..])
  {
    AddSlotsKeepsValid(t, slots[..i]);
    forall j | i <= j < |slots| ensures slots[j].offset !in AddSlots(t, slots[..i]).slotMap {
      AddSlotsEffect(t, slots[..i], slots[j].offset);
    }
  }

  lemma FreshStep(t: SlotTable, slots: seq<Slot>, i: nat)
    requires t.Valid() && Fresh(t.slotMap, slots) && AllUntracked(slots) && i < |slots|
    ensures var now := AddSlots(t, slots[..i]);
            && now.Bijective() && slots[i].offset !in now.slotMap && slots[i].offset != INVALID_POINTER_OFFSET
            && AddSlots(t, slots[..i+1]) == now.AddSlot(slots[i])
  {
    FreshPrefix(t, slots, i);
    assert slots[i..][0] == slots[i];
    assert slots[..i+1][..i] == slots[..i];
  }

  lemma {:induction false} AddSlotsConcat(t: SlotTable, a: seq<Slot>, b: seq<Slot>)
    ensures AddSlots(AddSlots(t, a), b) == AddSlots(t, a + b)
  {
    if b == [] {
      assert a + b == a;
    } else {
      assert (a + b)[..|a + b| - 1] == a + b[..|b| - 1];
      AddSlotsConcat(t, a, b[..|b| - 1]);
    }
  }

  lemma {:induction false} JoinPrefix(parts: seq<seq<Slot>>, i: nat, n: nat)
    requires i <= n <= |parts|
    ensures Join(parts, i) <= Join(parts, n)
  {
    if i < n {
      JoinPrefix(parts, i, n - 1);
    }
  }

  /** The table before part i accepts that part. */
  lemma JoinStep(t: SlotTable, parts: seq<seq<Slot>>, i: nat)
    requires i < |parts| && t.Valid() && Fresh(t.slotMap, Join(parts, |parts|))
    requires forall j :: 0 <= j < |parts| ==> AllUntracked(parts[j])
    ensures var t' := AddSlots(t, Join(parts, i));
            t'.Valid() && Fresh(t'.slotMap, parts[i]) && AddSlots(t', parts[i]) == AddSlots(t, Join(parts, i + 1))
  {
    var before, upTo := Join(parts, i), Join(parts, i + 1);
    JoinPrefix(parts, i + 1, |parts|);
    JoinUntracked(parts, i + 1);
    FreshOfPrefix(t.slotMap, upTo, Join(parts, |parts|));
    FreshPrefix(t, upTo, |before|);
    AddSlotsConcat(t, before, parts[i]);
    assert upTo[..|before|] == before && upTo[|before|..] == parts[i];
  }

  lemma FreshOfPrefix(m: SlotMap, slots: seq<Slot>, all: seq<Slot>)
    requires slots <= all && Fresh(m, all)
    ensures Fresh(m, slots)
  {
    assert forall i :: 0 <= i < |slots| ==> slots[i] == all[i];
  }

  /** Offsets of a valid table lead back from ids to offsets. */
  lemma SlotsDecode(t: SlotTable, offsets: set<int>)
    requires t.Bijective() && offsets <= t.slotMap.Keys
    ensures t.StackOffsets(SlotsOf(t.slotMap, offsets)) == offsets
  {
    forall o | o in offsets ensures o in t.StackOffsets(SlotsOf(t.slotMap, offsets)) {
      assert t.slotMap[o] in SlotsOf(t.slotMap, offsets);
    }
  }

  /** A whole run: track every record, then add the untracked slots. Ids stay dense with one offset
      each, tracked ids are one block and are exactly those without the untracked flag, and a reader
      of the emitted transitions and slots recovers, at every safepoint, the offsets listed there. */
  lemma WholeRun(records: seq<Record>, untracked: seq<Slot>, k: nat)
    requires Fresh(TrackRecords(EMPTY_TABLE, records).slotMap, untracked) && AllUntracked(untracked)
    ensures var t := AddSlots(TrackRecords(EMPTY_TABLE, records), untracked);
            && t.Valid()
            && (k < |records| ==>
                  t.StackOffsets(Replay(Emit(map[], records[..k+1]))) == LiveOffsets(records[k].locations))
  {
    var t := TrackRecords(EMPTY_TABLE, records);
    TrackRecordsKeepsValid(EMPTY_TABLE, records, AllLiveOffsets(records));
    AddSlotsKeepsValid(t, untracked);
    if k < |records| {
      var offsets := LiveOffsets(records[k].locations);
      SafepointReplay(map[], records, k);
      forall o | o in offsets {
        AddSlotsEffect(t, untracked, o);
      }
      assert SlotsOf(AddSlots(t, untracked).slotMap, offsets) == SlotsOf(t.slotMap, offsets);
      SlotsDecode(AddSlots(t, untracked), offsets);
    }
  }

  /** The reader's view of a whole run: the transitions up to each safepoint decode to the offsets
      listed there, and so does a lookup by its call site when call sites increase. */
  ghost predicate ReadsBack(t: SlotTable, states: seq<Transition>, records: seq<Record>, k: nat)
    requires k < |records|
  {
    && Emit(map[], records[..k+1]) <= states
    && t.StackOffsets(Replay(Emit(map[], records[..k+1]))) == LiveOffsets(records[k].locations)
    && (CallSitesOrdered(records) ==>
          t.StackOffsets(Replay(Until(states, CallSite(records[k])))) == LiveOffsets(records[k].locations))
  }

  lemma WholeRunReads(records: seq<Record>, untracked: seq<Slot>)
    requires Fresh(TrackRecords(EMPTY_TABLE, records).slotMap, untracked) && AllUntracked(untracked)
    ensures var t := AddSlots(TrackRecords(EMPTY_TABLE, records), untracked);
            forall k :: 0 <= k < |records| ==> ReadsBack(t, Emit(map[], records), records, k)
  {
    forall k | 0 <= k < |records|
      ensures ReadsBack(AddSlots(TrackRecords(EMPTY_TABLE, records), untracked), Emit(map[], records), records, k)
    {
      EmitPrefix(map[], records, k + 1);
      WholeRun(records, untracked, k);
      if CallSitesOrdered(records) {
        LookupByCodeOffset(map[], records, k, CallSite(records[k]));
        SafepointReplay(map[], records, k);
      }
    }
  }

  // ---------------------------------------------------------------------------
  // Lookup by return address
  // ---------------------------------------------------------------------------

  /** A reader that looks two bytes before the return address of safepoint k finds the offsets listed there. */
  ghost predicate ReadsByReturn(t: SlotTable, states: seq<Transition>, records: seq<Record>, k: nat)
    requires k < |records|
  {
    records[k].instructionOffset >= 2 &&
    t.StackOffsets(Replay(Until(states, records[k].instructionOffset - 2))) == LiveOffsets(records[k].locations)
  }

  /** Return addresses increase and none is inside the first two bytes. */
  ghost predicate ReturnsOrdered(records: seq<Record>)
  {
    Ordered(records) && (records != [] ==> records[0].instructionOffset >= 2)
  }

  lemma ReadsBackByReturn(t: SlotTable, states: seq<Transition>, records: seq<Record>, k: nat)
    requires ReturnsOrdered(records) && k < |records| && ReadsBack(t, states, records, k)
    ensures ReadsByReturn(t, states, records, k)
  {
    CallSitesOrderedExactly(records);
    assert k > 0 ==> records[0].instructionOffset < records[k].instructionOffset;
    CallSiteBeforeReturn(records[k]);
  }

  // ---------------------------------------------------------------------------
  // The flags of tracked slots
  // ---------------------------------------------------------------------------

  /** A slot that may hold a pointer into an object, and is neither untracked nor pinned. */
  predicate TracksInterior(slot: Slot)
  {
    Interior in slot.flags && Untracked !in slot.flags && Pinned !in slot.flags
  }

  ghost predicate AllInterior(slots: seq<Slot>)
  {
    forall i :: 0 <= i < |slots| ==> TracksInterior(slots[i])
  }

  lemma {:induction false} TrackLocationsInterior(t: SlotTable, locations: seq<Location>)
    requires AllInterior(t.slots)
    ensures AllInterior(TrackLocations(t, locations).slots)
  {
    if locations != [] {
      TrackLocationsInterior(t, locations[..|locations| - 1]);
    }
  }

  /** Every tracked slot that the encoder receives is an interior one. */
  lemma {:induction false} TrackRecordsInterior(t: SlotTable, records: seq<Record>)
    requires AllInterior(t.slots)
    ensures AllInterior(TrackRecords(t, records).slots)
  {
    if records != [] {
      var n := |records| - 1;
      TrackRecordsInterior(t, records[..n]);
      TrackLocationsInterior(TrackRecords(t, records[..n]), records[n].locations);
    }
  }

  // ---------------------------------------------------------------------------
  // The pointers on the stack
  // ---------------------------------------------------------------------------

  /** An allocation holds a managed pointer at some distance from its start: it is one, or is a struct with one. */
  predicate HoldsPointerAt(a: Alloca, p: nat)
  {
    (a.ty == GcTypes.Pointer(1) && p == 0) || (a.ty.Struct? && p in GcTypes.GcLeaves(a.ty, 0))
  }

  /** The pointer walk of the allocation's type finds just its pointers. */
  ghost predicate CleanLayout(a: Alloca, pointerSize: nat)
    requires pointerSize > 0
  {
    a.ty.Struct? && GcTypes.WellLaidOut(a.ty, pointerSize) ==>
      GcTypes.PointerAligned(GcTypes.GcLeaves(a.ty, 0), pointerSize) &&
      GcTypes.NoPaddingAfterGcPointer(a.ty, pointerSize)
  }

  ghost predicate AllClean(allocas: seq<Alloca>, pointerSize: nat)
    requires pointerSize > 0
  {
    forall i :: 0 <= i < |allocas| ==> CleanLayout(allocas[i], pointerSize)
  }

  /** A slot for the pointer that an allocation holds: untracked, pinned just when the allocation is, and interior
      just for a pointer of its own that is not pinned. */
  predicate SlotFits(slot: Slot, a: Alloca, p: nat)
  {
    && slot.offset == a.offset + p && Untracked in slot.flags
    && (Pinned in slot.flags <==> a.isPinned)
    && (Interior in slot.flags <==> !a.isPinned && a.ty.Pointer?)
  }

  /** Slots for just the pointers that one allocation holds. */
  ghost predicate FitsAlloca(slots: seq<Slot>, a: Alloca)
  {
    && (forall i :: 0 <= i < |slots| ==> SlotOfOne(slots[i], a))
    && (forall p: nat :: HoldsPointerAt(a, p) ==> HasSlot(slots, a, p))
  }

  ghost predicate SlotOfOne(slot: Slot, a: Alloca)
  {
    exists p: nat :: HoldsPointerAt(a, p) && SlotFits(slot, a, p)
  }

  ghost predicate HasSlot(slots: seq<Slot>, a: Alloca, p: nat)
  {
    exists i :: 0 <= i < |slots| && SlotFits(slots[i], a, p)
  }

  lemma SlotsOfAllocaFit(a: Alloca, pointerSize: nat)
    requires pointerSize > 0 && Encodable(a, pointerSize) && CleanLayout(a, pointerSize)
    ensures FitsAlloca(SlotsOfAlloca(a, pointerSize), a)
  {
    var slots := SlotsOfAlloca(a, pointerSize);
    if a.ty == GcTypes.Pointer(1) {
      assert slots == [Slot(a.offset, UntrackedFlags(a.isPinned, false))];
      assert HoldsPointerAt(a, 0) && SlotFits(slots[0], a, 0);
    } else if GcTypes.IsGcAggregate(a.ty) {
      GcTypes.WalkFindsLeavesExactly(a.ty, pointerSize);
      AggregateSlotsFit(a, GcTypes.GcLeaves(a.ty, 0), slots);
    } else {
      NoPointersHeld(a);
    }
  }

  lemma AggregateSlotsFit(a: Alloca, leaves: seq<nat>, slots: seq<Slot>)
    requires a.ty.Struct? && leaves == GcTypes.GcLeaves(a.ty, 0)
    requires slots == SlotsAt(a.offset, leaves, UntrackedFlags(a.isPinned, true))
    ensures FitsAlloca(slots, a)
  {
    forall i | 0 <= i < |slots| ensures SlotOfOne(slots[i], a) {
      LeafHasSlot(a, leaves, slots, i);
      IsPointerOf(a, leaves[i]);
    }
    forall p: nat | HoldsPointerAt(a, p) ensures HasSlot(slots, a, p) {
      var i :| 0 <= i < |leaves| && leaves[i] == p;
      LeafHasSlot(a, leaves, slots, i);
    }
  }

  lemma IsPointerOf(a: Alloca, p: nat)
    requires a.ty.Struct? && p in GcTypes.GcLeaves(a.ty, 0)
    ensures HoldsPointerAt(a, p)
  {
  }

  lemma LeafHasSlot(a: Alloca, leaves: seq<nat>, slots: seq<Slot>, i: nat)
    requires a.ty.Struct? && slots == SlotsAt(a.offset, leaves, UntrackedFlags(a.isPinned, true)) && i < |leaves|
    ensures SlotFits(slots[i], a, leaves[i]) && HasSlot(slots, a, leaves[i])
  {
    assert SlotFits(slots[i], a, leaves[i]);
  }

  lemma NoPointersHeld(a: Alloca)
    requires !GcTypes.IsGcPointer(a.ty) && !GcTypes.IsGcAggregate(a.ty)
    ensures forall p: nat :: !HoldsPointerAt(a, p)
  {
    GcTypes.GcTypeMeaning(a.ty, 0);
  }

  ghost predicate SlotOf(slot: Slot, allocas: seq<Alloca>)
  {
    exists i :: 0 <= i < |allocas| && SlotOfOne(slot, allocas[i])
  }

  /** Slots for just the pointers that some allocations hold. */
  ghost predicate FitsAllocas(slots: seq<Slot>, allocas: seq<Alloca>)
  {
    && (forall i :: 0 <= i < |slots| ==> SlotOf(slots[i], allocas))
    && (forall i, p: nat :: 0 <= i < |allocas| && HoldsPointerAt(allocas[i], p) ==> HasSlot(slots, allocas[i], p))
  }

  lemma {:induction false} JoinFits(parts: seq<seq<Slot>>, allocas: seq<Alloca>, n: nat)
    requires n <= |parts| == |allocas| && forall i :: 0 <= i < |parts| ==> FitsAlloca(parts[i], allocas[i])
    ensures FitsAllocas(Join(parts, n), allocas[..n])
  {
    if n > 0 {
      JoinFits(parts, allocas, n - 1);
      OneMoreFits(Join(parts, n - 1), parts[n - 1], allocas[..n - 1], allocas[n - 1]);
      assert allocas[..n] == allocas[..n - 1] + [allocas[n - 1]];
    }
  }

  lemma OneMoreFits(slots: seq<Slot>, more: seq<Slot>, allocas: seq<Alloca>, a: Alloca)
    requires FitsAllocas(slots, allocas) && FitsAlloca(more, a)
    ensures FitsAllocas(slots + more, allocas + [a])
  {
    var all, as_ := slots + more, allocas + [a];
    forall k | 0 <= k < |all| ensures SlotOf(all[k], as_) {
      if k < |slots| {
        SlotOfLonger(slots[k], allocas, a);
      } else {
        assert SlotOfOne(more[k - |slots|], as_[|allocas|]);
      }
    }
    forall i, p: nat | 0 <= i < |as_| && HoldsPointerAt(as_[i], p) ensures HasSlot(all, as_[i], p) {
      SlotStays(slots, more, as_[i], p);
    }
  }

  lemma SlotOfLonger(slot: Slot, allocas: seq<Alloca>, a: Alloca)
    requires SlotOf(slot, allocas)
    ensures SlotOf(slot, allocas + [a])
  {
    var i :| 0 <= i < |allocas| && SlotOfOne(slot, allocas[i]);
    assert (allocas + [a])[i] == allocas[i];
  }

  lemma SlotStays(slots: seq<Slot>, more: seq<Slot>, a: Alloca, p: nat)
    requires HasSlot(slots, a, p) || HasSlot(more, a, p)
    ensures HasSlot(slots + more, a, p)
  {
    var all := slots + more;
    if HasSlot(slots, a, p) {
      var k :| 0 <= k < |slots| && SlotFits(slots[k], a, p);
      assert SlotFits(all[k], a, p);
    } else {
      var k :| 0 <= k < |more| && SlotFits(more[k], a, p);
      assert SlotFits(all[|slots| + k], a, p);
    }
  }

  lemma SlotsOfAllocasFit(allocas: seq<Alloca>, pointerSize: nat)
    requires pointerSize > 0 && AllEncodable(allocas, pointerSize) && AllClean(allocas, pointerSize)
    ensures FitsAllocas(SlotsOfAllocas(allocas, pointerSize), allocas)
  {
    var parts := PartsOf(allocas, pointerSize);
    forall i | 0 <= i < |parts| ensures FitsAlloca(parts[i], allocas[i]) {
      SlotsOfAllocaFit(allocas[i], pointerSize);
    }
    JoinFits(parts, allocas, |allocas|);
    assert allocas[..|allocas|] == allocas;
  }

  /** What the encoder is told of slots: first interior ones that are tracked, then one for each pointer that the
      allocations hold, and no others. */
  ghost predicate Reports(slots: seq<Slot>, allocas: seq<Alloca>)
  {
    exists n :: 0 <= n <= |slots| && AllInterior(slots[..n]) && FitsAllocas(slots[n..], allocas)
  }

  lemma RunReports(records: seq<Record>, allocas: seq<Alloca>, pointerSize: nat)
    requires pointerSize > 0 && AllEncodable(allocas, pointerSize) && AllClean(allocas, pointerSize)
    requires Fresh(TrackRecords(EMPTY_TABLE, records).slotMap, SlotsOfAllocas(allocas, pointerSize))
    ensures Reports(AddSlots(TrackRecords(EMPTY_TABLE, records), SlotsOfAllocas(allocas, pointerSize)).slots, allocas)
  {
    var t, untracked := TrackRecords(EMPTY_TABLE, records), SlotsOfAllocas(allocas, pointerSize);
    TrackRecordsInterior(EMPTY_TABLE, records);
    SlotsOfAllocasFit(allocas, pointerSize);
    AddSlotsEffect(t, untracked, 0);
    SplitReports(t.slots, untracked, allocas);
  }

  lemma SplitReports(tracked: seq<Slot>, untracked: seq<Slot>, allocas: seq<Alloca>)
    requires AllInterior(tracked) && FitsAllocas(untracked, allocas)
    ensures Reports(tracked + untracked, allocas)
  {
    var slots, n := tracked + untracked, |tracked|;
    assert slots[..n] == tracked && slots[n..] == untracked;
  }
}
