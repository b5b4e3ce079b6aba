/** Stack-map records list every slot live at a safepoint; GC tables list births and deaths.
    This module defines the translation on values, and a reader that undoes it. */
module GcLiveness {

  const DW_STACK_POINTER := 7
  const INVALID_POINTER_OFFSET := -1
  const CALL_SITE_SIZE := 2
  const TWO_TO_THE_32 := 0x1_0000_0000

  datatype Location =
    | Constant
    | ConstantIndex
    | Register
    | Direct
    | Indirect(baseRegister: nat, offset: int)

  datatype Record = Record(instructionOffset: nat, locations: seq<Location>)

  datatype SlotState = Live | Dead

  datatype Transition = Transition(codeOffset: nat, slot: nat, state: SlotState)

  /** Stack offset to slot id. */
  type SlotMap = map<int, nat>

  /** The locations the emitter accepts: registers and direct locations trip its assertions. */
  predicate Reportable(loc: Location)
  {
    match loc
    case Constant | ConstantIndex => true
    case Register | Direct => false
    case Indirect(base, offset) =>
      base == DW_STACK_POINTER && offset != INVALID_POINTER_OFFSET && -0x8000_0000 <= offset < 0x8000_0000
  }

  predicate AllReportable(records: seq<Record>)
  {
    forall i, j :: 0 <= i < |records| && 0 <= j < |records[i].locations| ==> Reportable(records[i].locations[j])
  }

  /** The start of the call instruction, in 32-bit unsigned arithmetic. */
  function CallSite(r: Record): nat
  {
    (r.instructionOffset - CALL_SITE_SIZE) % TWO_TO_THE_32
  }

  function LiveOffsets(locations: seq<Location>): set<int>
  {
    set i | 0 <= i < |locations| && locations[i].Indirect? :: locations[i].offset
  }

  // ---------------------------------------------------------------------------
  // Slot ids
  // ---------------------------------------------------------------------------

  /** Ids are below the number of slots, and no two offsets share one. */
  ghost predicate Dense(m: SlotMap)
  {
    && (forall o :: o in m ==> m[o] < |m|)
    && (forall o, p :: o in m && p in m && m[o] == m[p] ==> o == p)
  }

  function AssignSlot(m: SlotMap, offset: int): SlotMap
  {
    if offset in m then m else m[offset := |m|]
  }

  function AssignLocations(m: SlotMap, locations: seq<Location>): SlotMap
  {
    if locations == [] then m
    else
      var last := locations[|locations| - 1];
      var m' := AssignLocations(m, locations[..|locations| - 1]);
      if last.Indirect? then AssignSlot(m', last.offset) else m'
  }

  function AssignRecords(m: SlotMap, records: seq<Record>): SlotMap
  {
    if records == [] then m
    else AssignLocations(AssignRecords(m, records[..|records| - 1]), records[|records| - 1].locations)
  }

  function SlotsOf(m: SlotMap, offsets: set<int>): set<nat>
  {
    set o | o in offsets && o in m :: m[o]
  }

  /** The slots live at the last record, or none before the first. */
  function LiveAfter(m: SlotMap, records: seq<Record>): set<nat>
  {
    if records == [] then {}
    else SlotsOf(AssignRecords(m, records), LiveOffsets(records[|records| - 1].locations))
  }

  ghost predicate Extends(m: SlotMap, m': SlotMap)
  {
    && Dense(m')
    && |m| <= |m'|
    && (forall o :: o in m ==> o in m' && m'[o] == m[o])
    && (forall o :: o in m' && o !in m ==> m'[o] >= |m|)
  }

  lemma AssignSlotExtends(m: SlotMap, offset: int)
    requires Dense(m)
    ensures Extends(m, AssignSlot(m, offset)) && AssignSlot(m, offset).Keys == m.Keys + {offset}
    ensures |AssignSlot(m, offset)| == |m| + if offset in m then 0 else 1
  {
    SlotKeys(m, offset);
  }

  lemma ExtendsTransitive(m: SlotMap, m': SlotMap, m'': SlotMap)
    requires Extends(m, m') && Extends(m', m'')
    ensures Extends(m, m'')
  {
  }

  lemma {:induction false} AssignLocationsExtends(m: SlotMap, locations: seq<Location>)
    requires Dense(m)
    ensures Extends(m, AssignLocations(m, locations))
  {
    if locations != [] {
      var n := |locations| - 1;
      var m' := AssignLocations(m, locations[..n]);
      AssignLocationsExtends(m, locations[..n]);
      if locations[n].Indirect? {
        AssignSlotExtends(m', locations[n].offset);
        ExtendsTransitive(m, m', AssignSlot(m', locations[n].offset));
      }
    }
  }

  lemma {:induction false} AssignLocationsKeys(m: SlotMap, locations: seq<Location>)
    ensures AssignLocations(m, locations).Keys == m.Keys + LiveOffsets(locations)
  {
    if locations != [] {
      var n := |locations| - 1;
      AssignLocationsKeys(m, locations[..n]);
      LiveOffsetsOfLast(locations);
      KeysOfLast(m, locations);
      UnionGrows(m.Keys, LiveOffsets(locations[..n]), if locations[n].Indirect? then {locations[n].offset} else {});
    }
  }

  lemma UnionGrows(a: set<int>, b: set<int>, c: set<int>)
    ensures (a + b) + c == a + (b + c)
  {
  }

  lemma KeysOfLast(m: SlotMap, locations: seq<Location>)
    requires locations != []
    ensures var n := |locations| - 1;
            AssignLocations(m, locations).Keys ==
            AssignLocations(m, locations[..n]).Keys + if locations[n].Indirect? then {locations[n].offset} else {}
  {
    var last := locations[|locations| - 1];
    if last.Indirect? {
      SlotKeys(AssignLocations(m, locations[..|locations| - 1]), last.offset);
    }
  }

  lemma SlotKeys(m: SlotMap, offset: int)
    ensures AssignSlot(m, offset).Keys == m.Keys + {offset}
  {
  }

  lemma LiveOffsetsOfLast(locations: seq<Location>)
    requires locations != []
    ensures var n := |locations| - 1;
            LiveOffsets(locations) ==
            LiveOffsets(locations[..n]) + if locations[n].Indirect? then {locations[n].offset} else {}
  {
    var n := |locations| - 1;
    LiveOffsetsSnoc(locations[..n], locations[n]);
    assert locations == locations[..n] + [locations[n]];
  }

  lemma LiveOffsetsSnoc(init: seq<Location>, last: Location)
    ensures LiveOffsets(init + [last]) == LiveOffsets(init) + if last.Indirect? then {last.offset} else {}
  {
    var all := init + [last];
    forall o | o in LiveOffsets(init) ensures o in LiveOffsets(all) {
      var i :| 0 <= i < |init| && init[i].Indirect? && init[i].offset == o;
      assert all[i] == init[i];
    }
    if last.Indirect? {
      assert all[|init|] == last;
    }
  }

  lemma {:induction false} AssignRecordsExtends(m: SlotMap, records: seq<Record>)
    requires Dense(m)
    ensures Extends(m, AssignRecords(m, records))
    ensures records != [] ==> LiveOffsets(records[|records| - 1].locations) <= AssignRecords(m, records).Keys
  {
    if records != [] {
      var n := |records| - 1;
      var m' := AssignRecords(m, records[..n]);
      AssignRecordsExtends(m, records[..n]);
      AssignLocationsKeys(m', records[n].locations);
      AssignLocationsExtends(m', records[n].locations);
      ExtendsTransitive(m, m', AssignRecords(m, records));
    }
  }

  /** Later records leave the ids handed out by earlier ones alone. */
  lemma {:induction false} AssignPrefixExtends(m: SlotMap, records: seq<Record>, k: nat)
    requires Dense(m) && k <= |records|
    ensures Extends(AssignRecords(m, records[..k]), AssignRecords(m, records))
    decreases |records|
  {
    AssignRecordsExtends(m, records);
    if k < |records| {
      var n := |records| - 1;
      assert records[..n][..k] == records[..k];
      AssignPrefixExtends(m, records[..n], k);
      AssignRecordsExtends(m, records[..n]);
      AssignLocationsExtends(AssignRecords(m, records[..n]), records[n].locations);
      ExtendsTransitive(AssignRecords(m, records[..k]), AssignRecords(m, records[..n]), AssignRecords(m, records));
    } else {
      assert records[..k] == records;
    }
  }

  // ---------------------------------------------------------------------------
  // The translation
  // ---------------------------------------------------------------------------

  /** The calls for slots below n at one safepoint, in slot order. */
  function Changes(at: nat, before: set<nat>, after: set<nat>, n: nat): seq<Transition>
  {
    if n == 0 then []
    else
      var slot := n - 1;
      Changes(at, before, after, slot)
      + if slot !in before && slot in after then [Transition(at, slot, Live)]
        else if slot in before && slot !in after then [Transition(at, slot, Dead)]
        else []
  }

  function Emit(m: SlotMap, records: seq<Record>): seq<Transition>
  {
    if records == [] then []
    else
      var init := records[..|records| - 1];
      Emit(m, init)
      + Changes(CallSite(records[|records| - 1]), LiveAfter(m, init), LiveAfter(m, records),
                |AssignRecords(m, records)|)
  }

  lemma RecordStep(m: SlotMap, records: seq<Record>, k: nat)
    requires k < |records|
    ensures var m' := AssignRecords(m, records[..k+1]);
            var after := SlotsOf(m', LiveOffsets(records[k].locations));
            && m' == AssignLocations(AssignRecords(m, records[..k]), records[k].locations)
            && LiveAfter(m, records[..k+1]) == after
            && Emit(m, records[..k+1]) ==
               Emit(m, records[..k]) + Changes(CallSite(records[k]), LiveAfter(m, records[..k]), after, |m'|)
  {
    assert records[..k+1][..k] == records[..k];
  }

  // ---------------------------------------------------------------------------
  // The reader
  // ---------------------------------------------------------------------------

  /** The live set after a sequence of transitions. */
  function Replay(log: seq<Transition>): set<nat>
  {
    if log == [] then {}
    else
      var last := log[|log| - 1];
      var live := Replay(log[..|log| - 1]);
      if last.state == Live then live + {last.slot} else live - {last.slot}
  }

  /** The transitions at or before a code offset. */
  function Until(log: seq<Transition>, codeOffset: nat): seq<Transition>
  {
    if log == [] then []
    else
      var last := log[|log| - 1];
      Until(log[..|log| - 1], codeOffset) + if last.codeOffset <= codeOffset then [last] else []
  }

  /** The successive states of one slot. */
  function History(log: seq<Transition>, slot: nat): seq<SlotState>
  {
    if log == [] then []
    else
      var last := log[|log| - 1];
      History(log[..|log| - 1], slot) + if last.slot == slot then [last.state] else []
  }

  function Count(log: seq<Transition>, state: SlotState): nat
  {
    if log == [] then 0
    else Count(log[..|log| - 1], state) + if log[|log| - 1].state == state then 1 else 0
  }

  ghost predicate Alternates(history: seq<SlotState>)
  {
    forall i :: 0 <= i < |history| ==> (history[i] == Live <==> i % 2 == 0)
  }

  /** Every transition changes the state of its slot. */
  predicate Strict(log: seq<Transition>)
  {
    log != [] ==>
      var init, last := log[..|log| - 1], log[|log| - 1];
      Strict(init) && (last.state == Live <==> last.slot !in Replay(init))
  }

  // ---------------------------------------------------------------------------
  // Replaying undoes the translation
  // ---------------------------------------------------------------------------

  lemma {:induction false} ReplayChanges(log: seq<Transition>, at: nat, before: set<nat>, after: set<nat>, n: nat)
    requires Replay(log) == before
    ensures Replay(log + Changes(at, before, after, n)) ==
            (set s | s in after && s < n) + (set s | s in before && s >= n)
    ensures Strict(log) ==> Strict(log + Changes(at, before, after, n))
  {
    var changes := Changes(at, before, after, n);
    if n == 0 {
      assert log + changes == log;
    } else {
      var init := Changes(at, before, after, n - 1);
      ReplayChanges(log, at, before, after, n - 1);
      if changes != init {
        ReplayOneMore(log, init, changes[|init|]);
      }
    }
  }

  lemma ReplayOneMore(log: seq<Transition>, init: seq<Transition>, last: Transition)
    ensures Replay(log + (init + [last])) ==
            if last.state == Live then Replay(log + init) + {last.slot} else Replay(log + init) - {last.slot}
    ensures Strict(log + (init + [last])) <==>
            Strict(log + init) && (last.state == Live <==> last.slot !in Replay(log + init))
  {
    var all := log + (init + [last]);
    assert all[..|all| - 1] == log + init;
  }

  lemma LiveAfterBelow(m: SlotMap, records: seq<Record>)
    requires Dense(m)
    ensures forall s :: s in LiveAfter(m, records) ==> s < |AssignRecords(m, records)|
  {
    AssignRecordsExtends(m, records);
  }

  lemma {:induction false} ReplayEmit(m: SlotMap, records: seq<Record>)
    requires Dense(m)
    ensures Replay(Emit(m, records)) == LiveAfter(m, records)
    ensures Strict(Emit(m, records))
  {
    if records != [] {
      var n := |records| - 1;
      var init := records[..n];
      ReplayEmit(m, init);
      LiveAfterBelow(m, records);
      LiveAfterBelow(m, init);
      AssignPrefixExtends(m, records, n);
      ReplayChanges(Emit(m, init), CallSite(records[n]), LiveAfter(m, init), LiveAfter(m, records),
                    |AssignRecords(m, records)|);
    }
  }

  lemma {:induction false} EmitPrefix(m: SlotMap, records: seq<Record>, k: nat)
    requires k <= |records|
    ensures Emit(m, records[..k]) <= Emit(m, records)
    decreases |records|
  {
    if k < |records| {
      var n := |records| - 1;
      assert records[..n][..k] == records[..k];
      EmitPrefix(m, records[..n], k);
    } else {
      assert records[..k] == records;
    }
  }

  /** The transitions emitted up to safepoint k are a prefix of all of them, and replaying that
      prefix gives exactly the slots of the offsets listed as live at safepoint k. */
  lemma SafepointReplay(m: SlotMap, records: seq<Record>, k: nat)
    requires Dense(m) && k < |records|
    ensures Emit(m, records[..k+1]) <= Emit(m, records)
    ensures LiveOffsets(records[k].locations) <= AssignRecords(m, records).Keys
    ensures Replay(Emit(m, records[..k+1])) ==
            SlotsOf(AssignRecords(m, records), LiveOffsets(records[k].locations))
  {
    EmitPrefix(m, records, k + 1);
    ReplayEmit(m, records[..k+1]);
    AssignRecordsExtends(m, records[..k+1]);
    AssignPrefixExtends(m, records, k + 1);
    var offsets := LiveOffsets(records[k].locations);
    assert records[..k+1][k] == records[k];
    assert SlotsOf(AssignRecords(m, records[..k+1]), offsets) == SlotsOf(AssignRecords(m, records), offsets);
  }

  // ---------------------------------------------------------------------------
  // Lookup by code offset
  // ---------------------------------------------------------------------------

  ghost predicate Ordered(records: seq<Record>)
  {
    && (forall i, j :: 0 <= i < j < |records| ==> records[i].instructionOffset < records[j].instructionOffset)
    && (forall i :: 0 <= i < |records| ==> records[i].instructionOffset < TWO_TO_THE_32)
  }

  /** A call of two bytes starts two bytes before its return address, in 32-bit arithmetic. */
  lemma CallSiteBeforeReturn(r: Record)
    ensures CallSite(r) < TWO_TO_THE_32 && (CallSite(r) + 2) % TWO_TO_THE_32 == r.instructionOffset % TWO_TO_THE_32
    ensures 2 <= r.instructionOffset < TWO_TO_THE_32 ==> CallSite(r) == r.instructionOffset - 2
  {
  }

  ghost predicate CallSitesOrdered(records: seq<Record>)
  {
    forall i, j :: 0 <= i < j < |records| ==> CallSite(records[i]) < CallSite(records[j])
  }

  /** Subtracting the call size keeps the order exactly when it wraps nowhere or everywhere. */
  lemma CallSitesOrderedExactly(records: seq<Record>)
    requires Ordered(records)
    ensures CallSitesOrdered(records) <==>
            records == [] || records[0].instructionOffset >= 2 || records[|records| - 1].instructionOffset < 2
  {
    forall i | 0 <= i < |records|
      ensures CallSite(records[i]) ==
              var o := records[i].instructionOffset; if o >= 2 then o - 2 else o - 2 + TWO_TO_THE_32
    {
    }
    if CallSitesOrdered(records) && records != [] && records[0].instructionOffset < 2 && |records| > 1 {
      assert CallSite(records[0]) < CallSite(records[|records| - 1]);
    }
  }

  /** A first safepoint at offset 1 and a second at offset 5: the first call site wraps to 0xFFFFFFFF. */
  lemma WrappedCallSiteIsOutOfOrder(a: Record, b: Record)
    requires a.instructionOffset == 1 && b.instructionOffset == 5
    ensures Ordered([a, b]) && CallSite(a) == 0xFFFF_FFFF && !CallSitesOrdered([a, b])
  {
    CallSitesOrderedExactly([a, b]);
  }

  lemma {:induction false} UntilConcat(a: seq<Transition>, b: seq<Transition>, c: nat)
    ensures Until(a + b, c) == Until(a, c) + Until(b, c)
  {
    if b == [] {
      assert a + b == a;
    } else {
      var n := |b| - 1;
      assert (a + b)[..|a| + n] == a + b[..n];
      UntilConcat(a, b[..n], c);
    }
  }

  lemma {:induction false} UntilChanges(at: nat, before: set<nat>, after: set<nat>, n: nat, c: nat)
    ensures Until(Changes(at, before, after, n), c) == if at <= c then Changes(at, before, after, n) else []
  {
    if n > 0 {
      UntilChanges(at, before, after, n - 1, c);
      var init, all := Changes(at, before, after, n - 1), Changes(at, before, after, n);
      if all != init {
        assert all[..|all| - 1] == init;
      }
    }
  }

  lemma {:induction false} UntilEmit(m: SlotMap, records: seq<Record>, k: nat, c: nat)
    requires k <= |records|
    requires forall i :: 0 <= i < |records| ==> (CallSite(records[i]) <= c <==> i < k)
    ensures Until(Emit(m, records), c) == Emit(m, records[..k])
    decreases |records|
  {
    if records != [] {
      var n := |records| - 1;
      var init := records[..n];
      var changes := Changes(CallSite(records[n]), LiveAfter(m, init), LiveAfter(m, records),
                         |AssignRecords(m, records)|);
      UntilConcat(Emit(m, init), changes, c);
      UntilChanges(CallSite(records[n]), LiveAfter(m, init), LiveAfter(m, records), |AssignRecords(m, records)|, c);
      UntilEmit(m, init, if k <= n then k else n, c);
      if k <= n {
        assert init[..k] == records[..k];
      } else {
        assert init[..n] == init && records[..k] == records;
      }
    }
  }

  /** When the reported call sites increase, a reader that stops at any code offset from safepoint
      k up to the next one finds exactly the slots live at safepoint k. */
  lemma LookupByCodeOffset(m: SlotMap, records: seq<Record>, k: nat, c: nat)
    requires Dense(m) && k < |records| && CallSitesOrdered(records)
    requires CallSite(records[k]) <= c && (k + 1 < |records| ==> c < CallSite(records[k+1]))
    ensures Replay(Until(Emit(m, records), c)) ==
            SlotsOf(AssignRecords(m, records), LiveOffsets(records[k].locations))
  {
    forall i | 0 <= i < |records| ensures CallSite(records[i]) <= c <==> i < k + 1 {
      if i < k {
        assert CallSite(records[i]) < CallSite(records[k]);
      } else if k + 1 < i {
        assert CallSite(records[k+1]) < CallSite(records[i]);
      }
    }
    UntilEmit(m, records, k + 1, c);
    SafepointReplay(m, records, k);
  }

  // ---------------------------------------------------------------------------
  // Alternation and conservation
  // ---------------------------------------------------------------------------

  lemma {:induction false} StrictAlternates(log: seq<Transition>, slot: nat)
    requires Strict(log)
    ensures Alternates(History(log, slot))
    ensures slot in Replay(log) <==> |History(log, slot)| % 2 == 1
  {
    if log != [] {
      StrictAlternates(log[..|log| - 1], slot);
    }
  }

  lemma {:induction false} StrictConserves(log: seq<Transition>)
    requires Strict(log)
    ensures Count(log, Live) == Count(log, Dead) + |Replay(log)|
  {
    if log != [] {
      var init, last := log[..|log| - 1], log[|log| - 1];
      StrictConserves(init);
      if last.state == Live {
        assert |Replay(init) + {last.slot}| == |Replay(init)| + 1;
      } else {
        assert Replay(init) == (Replay(init) - {last.slot}) + {last.slot};
      }
    }
  }

  /** Each slot is born before it dies and never twice in a row, and births minus deaths is the
      number of slots live at the last safepoint. */
  lemma EmitAlternatesAndConserves(m: SlotMap, records: seq<Record>, slot: nat)
    requires Dense(m)
    ensures Alternates(History(Emit(m, records), slot))
    ensures Count(Emit(m, records), Live) - Count(Emit(m, records), Dead) == |LiveAfter(m, records)|
  {
    ReplayEmit(m, records);
    StrictAlternates(Emit(m, records), slot);
    StrictConserves(Emit(m, records));
  }

  // ---------------------------------------------------------------------------
  // Growth of the live bit sets
  // ---------------------------------------------------------------------------

  const INITIAL_BITS := 25

  datatype Event = NewSlot | EndOfRecord

  /** The two bit sets start with 25 bits and double once when a new slot makes the slot count
      exceed the size. A new slot's bit is then set, and the end of a record reads every slot's bit. */
  predicate BitsInRange(slots: nat, bits: nat, events: seq<Event>)
    decreases |events|
  {
    events != [] ==>
      match events[0]
      case NewSlot =>
        var bits' := if slots + 1 > bits then bits + bits else bits;
        slots < bits' && BitsInRange(slots + 1, bits', events[1..])
      case EndOfRecord =>
        slots <= bits && BitsInRange(slots, bits, events[1..])
  }

  lemma {:induction false} DoublingSuffices(slots: nat, bits: nat, events: seq<Event>)
    requires slots <= bits && bits > 0
    ensures BitsInRange(slots, bits, events)
    decreases |events|
  {
    if events != [] {
      match events[0]
      case NewSlot => DoublingSuffices(slots + 1, if slots + 1 > bits then bits + bits else bits, events[1..]);
      case EndOfRecord => DoublingSuffices(slots, bits, events[1..]);
    }
  }

  lemma RecordEndOutOfRange(slots: nat, bits: nat)
    requires slots > bits
    ensures !BitsInRange(slots, bits, [EndOfRecord])
  {
  }

  /** Every run stays inside the bit sets if and only if at most 25 slots were handed out before
      tracking starts, although the emitter is meant to allow untracked slots to come first. */
  lemma BitsInRangeExactly(slots: nat)
    ensures (forall events: seq<Event> :: BitsInRange(slots, INITIAL_BITS, events)) <==> slots <= 25
  {
    if slots <= INITIAL_BITS {
      forall events: seq<Event> ensures BitsInRange(slots, INITIAL_BITS, events) {
        DoublingSuffices(slots, INITIAL_BITS, events);
      }
    } else {
      RecordEndOutOfRange(slots, INITIAL_BITS);
    }
  }
}
