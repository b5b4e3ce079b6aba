/** The .xdata section: its documented layout, and the two passes over it that tell the execution
    engine about unwind information. */
module UnwindInfo {
  import opened Options
  import Multiples

  /** No result depends on the bound of a byte's value. */
  type Byte = nat
  const SENTINEL := 0xFFFF_FFFF
  const TWO_TO_THE_32 := 0x1_0000_0000
  const CLAUSE_WORDS := 6

  // ---------------------------------------------------------------------------
  // Layout
  // ---------------------------------------------------------------------------

  /** An UNWIND_INFO structure: three bits of version and five of flags, the prolog size, two bytes
      per unwind code, the frame register byte, padding of the codes to four bytes, the runtime
      function pointer unless version and flags together are 1, and padding to eight bytes in all. */
  datatype Entry = Entry(versionAndFlags: Byte, prolog: Byte, frame: Byte, codes: seq<Byte>,
                         codePadding: seq<Byte>, runtimeFunction: nat, tail: seq<Byte>) {

    predicate Valid() {
      && versionAndFlags % 8 == 1
      && |codes| % 2 == 0 && |codes| / 2 < 256
      && |codePadding| == (if |codes| % 4 == 0 then 0 else 2)
      && runtimeFunction < TWO_TO_THE_32
      && |tail| == (if codes == [] && versionAndFlags == 1 then 4 else 0)
    }

    /** The bytes that are reported: header and codes. */
    function Reported(): seq<Byte>
      requires Valid()
    {
      [versionAndFlags, prolog, |codes| / 2, frame] + codes
    }

    function Bytes(): seq<Byte>
      requires Valid()
    {
      Reported() + codePadding + (if versionAndFlags == 1 then [] else WordBytes(runtimeFunction)) + tail
    }

    function Size(): nat {
      4 + |codes| + |codePadding| + (if versionAndFlags == 1 then 0 else 4) + |tail|
    }
  }

  /** What follows the entries when there are funclets or clauses: where the function and each
      funclet end, and the exception clauses as six words each. */
  datatype Trailer = Trailer(endOffsets: seq<nat>, clauses: seq<seq<nat>>) {

    function Words(): seq<nat>
      requires |endOffsets| > 0
    {
      [SENTINEL, |endOffsets| - 1] + endOffsets + [|clauses|] + ClauseWords(clauses)
    }
  }

  datatype Section = Section(entries: seq<Entry>, trailer: Option<Trailer>) {

    /** One entry for the function, or one for the function and each funclet with a trailer. */
    ghost predicate Valid() {
      && entries != []
      && (forall i :: 0 <= i < |entries| ==> entries[i].Valid())
      && match trailer
         case None => |entries| == 1
         case Some(t) =>
           && |t.endOffsets| == |entries|
           && (forall i :: 0 <= i < |t.clauses| ==> |t.clauses[i]| == CLAUSE_WORDS)
           && AreWords(t.Words())
    }

    ghost function Bytes(): seq<Byte>
      requires Valid()
    {
      EntriesBytes(entries) + if trailer.None? then [] else WordsBytes(trailer.value.Words())
    }
  }

  predicate AreWords(ws: seq<nat>)
  {
    forall i :: 0 <= i < |ws| ==> ws[i] < TWO_TO_THE_32
  }

  function WordBytes(w: nat): (bs: seq<Byte>)
    requires w < TWO_TO_THE_32
    ensures |bs| == 4
  {
    [w % 256, w / 0x100 % 256, w / 0x1_0000 % 256, w / 0x100_0000]
  }

  function WordsBytes(ws: seq<nat>): (bs: seq<Byte>)
    requires AreWords(ws)
    ensures |bs| == 4 * |ws|
  {
    if ws == [] then [] else WordsBytes(ws[..|ws| - 1]) + WordBytes(ws[|ws| - 1])
  }

  function ClauseWords(clauses: seq<seq<nat>>): seq<nat>
  {
    if clauses == [] then [] else ClauseWords(clauses[..|clauses| - 1]) + clauses[|clauses| - 1]
  }

  function EntriesBytes(entries: seq<Entry>): seq<Byte>
    requires forall i :: 0 <= i < |entries| ==> entries[i].Valid()
  {
    if entries == [] then [] else EntriesBytes(entries[..|entries| - 1]) + entries[|entries| - 1].Bytes()
  }

  /** Where entry i starts. */
  ghost function EntryOffset(s: Section, i: nat): nat
    requires s.Valid() && i <= |s.entries|
  {
    if i == 0 then 0 else EntryOffset(s, i - 1) + s.entries[i - 1].Size()
  }

  // ---------------------------------------------------------------------------
  // Calls to the execution engine
  // ---------------------------------------------------------------------------

  datatype FuncKind = Root | Handler

  datatype Reservation = Reservation(isHandler: bool, size: nat)

  datatype Allocation = Allocation(start: nat, end: nat, unwindSize: nat, unwindBlock: nat, kind: FuncKind)

  /** One reservation per entry, in order, handlers after the first. */
  ghost predicate ReservesAll(s: Section, calls: seq<Reservation>)
    requires s.Valid()
  {
    && |calls| == |s.entries|
    && forall i :: 0 <= i < |calls| ==> calls[i] == Reservation(i > 0, |s.entries[i].Reported()|)
  }

  /** One allocation per entry, in order, with the entry's location and size; the code ranges are
      those of the trailer, or the whole code when there is none. */
  ghost predicate AllocatesAll(s: Section, hotCodeSize: nat, calls: seq<Allocation>)
    requires s.Valid()
  {
    && |calls| == |s.entries|
    && forall i :: 0 <= i < |calls| ==> calls[i] == AllocationOf(s, hotCodeSize, i)
  }

  datatype UnwindBlock = UnwindBlock(start: nat, size: nat)

  ghost function BlockOf(s: Section, i: nat): UnwindBlock
    requires s.Valid() && i < |s.entries|
  {
    UnwindBlock(EntryOffset(s, i), |s.entries[i].Reported()|)
  }

  ghost predicate HasEnd(trailer: Option<Trailer>, i: nat)
  {
    if trailer.None? then i == 0 else i < |trailer.value.endOffsets|
  }

  ghost function AllocationWith(trailer: Option<Trailer>, hotCodeSize: nat, block: UnwindBlock, i: nat): Allocation
    requires HasEnd(trailer, i)
  {
    Allocation(if i == 0 then 0 else trailer.value.endOffsets[i - 1],
               if trailer.None? then hotCodeSize else trailer.value.endOffsets[i],
               block.size, block.start, if i == 0 then Root else Handler)
  }

  ghost function AllocationOf(s: Section, hotCodeSize: nat, i: nat): Allocation
    requires s.Valid() && i < |s.entries|
  {
    AllocationWith(s.trailer, hotCodeSize, BlockOf(s, i), i)
  }

  // ---------------------------------------------------------------------------
  // Words
  // ---------------------------------------------------------------------------

  function ReadWord(data: seq<Byte>, p: nat): (w: nat)
    requires p + 4 <= |data|
  {
    data[p] + 0x100 * data[p + 1] + 0x1_0000 * data[p + 2] + 0x100_0000 * data[p + 3]
  }

  lemma WordRoundTrip(data: seq<Byte>, p: nat, w: nat)
    requires w < TWO_TO_THE_32 && p + 4 <= |data| && data[p..p+4] == WordBytes(w)
    ensures ReadWord(data, p) == w
  {
    var bs := data[p..p+4];
    assert data[p] == bs[0] && data[p + 1] == bs[1] && data[p + 2] == bs[2] && data[p + 3] == bs[3];
    assert w / 0x1_0000 == w / 0x100 / 256 && w / 0x100_0000 == w / 0x100 / 256 / 256;
  }

  /** The low byte comes first and the high byte last. */
  lemma LowByteFirst(data: seq<Byte>, p: nat)
    requires p + 4 <= |data| && forall i :: p <= i < p + 4 ==> data[i] < 256
    ensures ReadWord(data, p) % 0x100 == data[p] && ReadWord(data, p) / 0x100_0000 == data[p + 3]
  {
    var high := data[p + 1] + 0x100 * data[p + 2] + 0x1_0000 * data[p + 3];
    var low := data[p] + 0x100 * data[p + 1] + 0x1_0000 * data[p + 2];
    Multiples.DivModUnique(ReadWord(data, p), high, data[p], 0x100);
    Multiples.DivModUnique(ReadWord(data, p), data[p + 3], low, 0x100_0000);
  }

  lemma {:induction false} WordsBytesAt(ws: seq<nat>, i: nat)
    requires AreWords(ws) && i < |ws|
    ensures WordsBytes(ws)[4 * i..4 * i + 4] == WordBytes(ws[i])
  {
    var n := |ws| - 1;
    if i < n {
      WordsBytesAt(ws[..n], i);
    }
  }

  lemma {:induction false} ClauseWordsAt(clauses: seq<seq<nat>>, c: nat, j: nat)
    requires (forall i :: 0 <= i < |clauses| ==> |clauses[i]| == CLAUSE_WORDS) && c < |clauses| && j < CLAUSE_WORDS
    ensures |ClauseWords(clauses)| == CLAUSE_WORDS * |clauses|
    ensures ClauseWords(clauses)[CLAUSE_WORDS * c + j] == clauses[c][j]
  {
    var n := |clauses| - 1;
    if c < n {
      ClauseWordsAt(clauses[..n], c, j);
    } else if n > 0 {
      ClauseWordsAt(clauses[..n], 0, 0);
    }
  }

  // ---------------------------------------------------------------------------
  // Sections
  // ---------------------------------------------------------------------------

  /** Every entry takes at least eight bytes, a multiple of four, and no fewer than it reports. */
  lemma EntrySize(e: Entry)
    requires e.Valid()
    ensures |e.Bytes()| == e.Size()
    ensures |e.Bytes()| >= 8 && |e.Bytes()| % 4 == 0 && |e.Bytes()| >= |e.Reported()|
  {
  }

  lemma {:induction false} EntriesBytesPrefix(entries: seq<Entry>, i: nat)
    requires (forall j :: 0 <= j < |entries| ==> entries[j].Valid()) && i <= |entries|
    ensures EntriesBytes(entries[..i]) <= EntriesBytes(entries)
    decreases |entries|
  {
    if i < |entries| {
      assert entries[..|entries| - 1][..i] == entries[..i];
      EntriesBytesPrefix(entries[..|entries| - 1], i);
    } else {
      assert entries[..i] == entries;
    }
  }

  lemma {:induction false} EntryOffsetIs(s: Section, i: nat)
    requires s.Valid() && i <= |s.entries|
    ensures EntryOffset(s, i) == |EntriesBytes(s.entries[..i])|
  {
    if i > 0 {
      assert s.entries[..i][..i - 1] == s.entries[..i - 1];
      EntryOffsetIs(s, i - 1);
      EntrySize(s.entries[i - 1]);
    }
  }

  lemma PrefixSlice(pre: seq<Byte>, mid: seq<Byte>, all: seq<Byte>, more: seq<Byte>)
    requires pre + mid <= all
    ensures |pre + mid| <= |all + more| && (all + more)[|pre|..|pre| + |mid|] == mid
  {
  }

  /** The bytes of entry i stand at its offset, and the next entry follows. */
  lemma EntryAt(s: Section, i: nat)
    requires s.Valid() && i < |s.entries|
    ensures EntryOffset(s, i + 1) == EntryOffset(s, i) + |s.entries[i].Bytes()| <= |s.Bytes()|
    ensures s.Bytes()[EntryOffset(s, i)..EntryOffset(s, i + 1)] == s.entries[i].Bytes()
  {
    assert s.entries[..i+1][..i] == s.entries[..i];
    EntrySize(s.entries[i]);
    EntryOffsetIs(s, i);
    EntriesBytesPrefix(s.entries, i + 1);
    PrefixSlice(EntriesBytes(s.entries[..i]), s.entries[i].Bytes(), EntriesBytes(s.entries),
                if s.trailer.None? then [] else WordsBytes(s.trailer.value.Words()));
  }

  /** What a pass sees of entry i. */
  lemma EntrySeen(s: Section, i: nat)
    requires s.Valid() && i < |s.entries|
    ensures var p, q, data, e := EntryOffset(s, i), EntryOffset(s, i + 1), s.Bytes(), s.entries[i];
            && p + 8 <= q <= |data| && q == p + |e.Bytes()|
            && data[p] == e.versionAndFlags && data[p + 2] == |e.codes| / 2
  {
    EntryAt(s, i);
    EntrySize(s.entries[i]);
    var entry := s.Bytes()[EntryOffset(s, i)..EntryOffset(s, i + 1)];
    assert entry[0] == s.entries[i].versionAndFlags && entry[2] == |s.entries[i].codes| / 2;
  }

  lemma SliceOfSlice(data: seq<Byte>, p: nat, q: nat, n: nat)
    requires p <= p + n <= q <= |data|
    ensures data[p..p + n] == data[p..q][..n]
  {
  }

  lemma ReportedFirst(e: Entry)
    requires e.Valid()
    ensures e.Reported() <= e.Bytes()
  {
  }

  lemma ReportedSeen(s: Section, i: nat)
    requires s.Valid() && i < |s.entries|
    ensures var p, n := EntryOffset(s, i), |s.entries[i].Reported()|;
            p + n <= EntryOffset(s, i + 1) <= |s.Bytes()| && s.Bytes()[p..p + n] == s.entries[i].Reported()
  {
    EntryAt(s, i);
    EntrySize(s.entries[i]);
    SliceOfSlice(s.Bytes(), EntryOffset(s, i), EntryOffset(s, i + 1), |s.entries[i].Reported()|);
    ReportedFirst(s.entries[i]);
  }

  lemma SuffixOfSum(pre: seq<Byte>, rest: seq<Byte>)
    ensures (pre + rest)[|pre|..] == rest && (rest != [] ==> (pre + rest)[|pre|] == rest[0])
  {
  }

  lemma SentinelFirst(ws: seq<nat>)
    requires AreWords(ws) && ws != [] && ws[0] == SENTINEL
    ensures WordsBytes(ws)[0] == 0xFF
  {
    WordsBytesAt(ws, 0);
    assert WordsBytes(ws)[0] == WordsBytes(ws)[0..4][0];
  }

  /** What comes after the last entry: the end, or the trailer, which starts with the sentinel. */
  lemma AfterEntries(s: Section)
    requires s.Valid()
    ensures var q, data := EntryOffset(s, |s.entries|), s.Bytes();
            if s.trailer.None? then q == |data|
            else q < |data| && data[q] == 0xFF && TrailerAt(data, q, s.trailer.value.Words())
  {
    assert s.entries[..|s.entries|] == s.entries;
    EntryOffsetIs(s, |s.entries|);
    if s.trailer.Some? {
      SuffixOfSum(EntriesBytes(s.entries), WordsBytes(s.trailer.value.Words()));
      SentinelFirst(s.trailer.value.Words());
    }
  }

  /** The words stand at p, to the end of the data. */
  ghost predicate TrailerAt(data: seq<Byte>, p: nat, ws: seq<nat>)
  {
    AreWords(ws) && p <= |data| && data[p..] == WordsBytes(ws)
  }

  // ---------------------------------------------------------------------------
  // The passes
  // ---------------------------------------------------------------------------

  /** The size of an entry from two bytes of its header: header and codes, rounded up to a multiple
      of four, then the runtime function pointer, and at least eight. */
  function TotalSize(versionAndFlags: Byte, numCodes: Byte): (size: nat)
    ensures size >= 8 && size % 4 == 0 && size >= 4 + 2 * numCodes
  {
    var size := 4 + 2 * numCodes + (if numCodes % 2 == 1 then 2 else 0) + (if versionAndFlags == 1 then 0 else 4);
    if size < 8 then 8 else size
  }

  method GetXdataSize(data: seq<Byte>, p: nat) returns (reportedSize: nat, totalSize: nat)
    requires p + 2 < |data|
    ensures reportedSize == 4 + 2 * data[p + 2] && totalSize == TotalSize(data[p], data[p + 2])
  {
    var unreportedBytes := 0;
    var numCodes := data[p + 2];
    var reportedBytes := 4;
    reportedBytes := reportedBytes + 2 * numCodes;
    if reportedBytes / 2 % 2 == 1 {
      unreportedBytes := unreportedBytes + 2;
    }
    if data[p] != 1 {
      unreportedBytes := unreportedBytes + 4;
    }
    var totalBytes := reportedBytes + unreportedBytes;
    if totalBytes < 8 {
      totalBytes := 8;
    }
    reportedSize, totalSize := reportedBytes, totalBytes;
  }

  /** Those two bytes of a well-formed entry give the sizes of what it reports and of all of it. */
  lemma HeaderGivesSizes(e: Entry)
    requires e.Valid()
    ensures 4 + 2 * (|e.codes| / 2) == |e.Reported()|
    ensures TotalSize(e.versionAndFlags, |e.codes| / 2) == |e.Bytes()|
  {
    EntrySize(e);
  }

  /** Two codes and neither handler nor chain fill eight bytes, and so does a header alone; a third code or a handler
      takes four more. */
  lemma CommonSizes()
    ensures TotalSize(0x01, 2) == 8 && TotalSize(0x01, 0) == 8 && TotalSize(0x09, 0) == 8
    ensures TotalSize(0x01, 3) == 12 && TotalSize(0x09, 2) == 12 && TotalSize(0x19, 3) == 16
  {
  }

  /** The header at one offset leads to the next. */
  ghost predicate LeadsOn(data: seq<Byte>, offsets: seq<nat>, i: nat)
  {
    && i + 1 < |offsets| && offsets[i] + 2 < |data|
    && offsets[i + 1] == offsets[i] + TotalSize(data[offsets[i]], data[offsets[i] + 2])
  }

  /** What the passes go by: the offsets where entries start, the last one where they stop. */
  ghost predicate Walkable(data: seq<Byte>, offsets: seq<nat>)
  {
    && |offsets| > 1 && offsets[0] == 0
    && (forall i :: 0 <= i < |offsets| - 1 ==> LeadsOn(data, offsets, i))
    && (forall i :: 0 <= i < |offsets| - 1 ==> offsets[i] + 2 < |data|)
    && (forall i :: 0 < i < |offsets| - 1 ==> data[offsets[i]] % 8 == 1)
    && StopsAt(data, offsets[|offsets| - 1], |offsets| == 2)
  }

  /** The entries stop at the sentinel, or at the end when there is only one. */
  ghost predicate StopsAt(data: seq<Byte>, end: nat, onlyOne: bool)
  {
    end <= |data| && if end < |data| then data[end] == 0xFF else onlyOne
  }

  /** The offsets are those of the section's entries, whose headers tell what they report. */
  ghost predicate OffsetsOf(s: Section, data: seq<Byte>, offsets: seq<nat>)
    requires s.Valid()
  {
    && |offsets| == |s.entries| + 1
    && forall i :: 0 <= i < |s.entries| ==>
         offsets[i] + 2 < |data| && UnwindBlock(offsets[i], 4 + 2 * data[offsets[i] + 2]) == BlockOf(s, i)
  }

  /** The header of entry i stands at its offset and gives what it reports and where the next one starts. */
  ghost predicate EntryStands(s: Section, data: seq<Byte>, i: nat)
    requires s.Valid() && i < |s.entries|
  {
    var p := EntryOffset(s, i);
    && p + 2 < |data| && data[p] % 8 == 1
    && EntryOffset(s, i + 1) == p + TotalSize(data[p], data[p + 2])
    && 4 + 2 * data[p + 2] == |s.entries[i].Reported()|
  }

  ghost predicate EntriesStand(s: Section, data: seq<Byte>)
    requires s.Valid()
  {
    && (forall i :: 0 <= i < |s.entries| ==> EntryStands(s, data, i))
    && StopsAt(data, EntryOffset(s, |s.entries|), |s.entries| == 1)
  }

  lemma SectionStands(s: Section, data: seq<Byte>)
    requires s.Valid() && data == s.Bytes()
    ensures EntriesStand(s, data)
  {
    forall i | 0 <= i < |s.entries| ensures EntryStands(s, data, i) {
      EntrySeen(s, i);
      HeaderGivesSizes(s.entries[i]);
    }
    AfterEntries(s);
  }

  ghost predicate Landmark(s: Section, data: seq<Byte>, offsets: seq<nat>, i: nat)
    requires s.Valid() && i < |s.entries|
  {
    && LeadsOn(data, offsets, i) && data[offsets[i]] % 8 == 1
    && UnwindBlock(offsets[i], 4 + 2 * data[offsets[i] + 2]) == BlockOf(s, i)
  }

  /** The offsets by which both passes walk a section. */
  lemma {:induction false} Landmarks(s: Section, data: seq<Byte>, n: nat) returns (offsets: seq<nat>)
    requires s.Valid() && EntriesStand(s, data) && n <= |s.entries|
    ensures |offsets| == n + 1 && offsets[0] == 0 && offsets[n] == EntryOffset(s, n)
    ensures forall i :: 0 <= i < n ==> Landmark(s, data, offsets, i)
  {
    if n == 0 {
      offsets := [0];
    } else {
      var init := Landmarks(s, data, n - 1);
      offsets := init + [EntryOffset(s, n)];
      assert EntryStands(s, data, n - 1);
      forall i | 0 <= i < n ensures Landmark(s, data, offsets, i) {
        assert i < n - 1 ==> Landmark(s, data, init, i);
      }
    }
  }

  lemma SectionIsWalkable(s: Section, data: seq<Byte>) returns (offsets: seq<nat>)
    requires s.Valid() && EntriesStand(s, data)
    ensures Walkable(data, offsets) && OffsetsOf(s, data, offsets)
            && offsets[|s.entries|] == EntryOffset(s, |s.entries|)
  {
    offsets := Landmarks(s, data, |s.entries|);
    forall i | 0 <= i < |s.entries|
      ensures LeadsOn(data, offsets, i) && offsets[i] + 2 < |data| && data[offsets[i]] % 8 == 1
      ensures UnwindBlock(offsets[i], 4 + 2 * data[offsets[i] + 2]) == BlockOf(s, i)
    {
      assert Landmark(s, data, offsets, i);
    }
  }

  method ReserveUnwindSpace(data: seq<Byte>, ghost s: Section) returns (calls: seq<Reservation>)
    requires s.Valid() && data == s.Bytes()
    ensures ReservesAll(s, calls)
  {
    SectionStands(s, data);
    ghost var offsets := SectionIsWalkable(s, data);
    calls := ReserveEntries(data, offsets);
    HeadersReserve(s, data, offsets, calls);
  }

  lemma HeadersReserve(s: Section, data: seq<Byte>, offsets: seq<nat>, calls: seq<Reservation>)
    requires s.Valid() && OffsetsOf(s, data, offsets) && |calls| == |s.entries|
    requires forall j :: 0 <= j < |calls| ==> calls[j] == Reservation(j > 0, 4 + 2 * data[offsets[j] + 2])
    ensures ReservesAll(s, calls)
  {
    forall j | 0 <= j < |calls| ensures calls[j] == Reservation(j > 0, |s.entries[j].Reported()|) {
      assert UnwindBlock(offsets[j], 4 + 2 * data[offsets[j] + 2]) == BlockOf(s, j);
    }
  }

  method ReserveEntries(data: seq<Byte>, ghost offsets: seq<nat>) returns (calls: seq<Reservation>)
    requires Walkable(data, offsets)
    ensures |calls| == |offsets| - 1
    ensures forall j :: 0 <= j < |calls| ==> calls[j] == Reservation(j > 0, 4 + 2 * data[offsets[j] + 2])
  {
    calls := [];
    var isHandler := false;
    var p := 0;
    while true
      invariant |calls| < |offsets| - 1 && p == offsets[|calls|] && (isHandler <==> |calls| > 0)
      invariant forall j :: 0 <= j < |calls| ==> calls[j] == Reservation(j > 0, 4 + 2 * data[offsets[j] + 2])
      decreases |offsets| - |calls|
    {
      assert LeadsOn(data, offsets, |calls|);
      var reportedByteCount, totalByteCount := GetXdataSize(data, p);
      calls := calls + [Reservation(isHandler, reportedByteCount)];
      isHandler := true;
      p := p + totalByteCount;
      if p == |data| {
        break;
      }
      if data[p] % 8 != 1 {
        assert data[p] == 0xFF;
        break;
      }
    }
  }

  /** The first walk of registerEHFrames: where each entry is and how much of it is reported. */
  method CollectUnwindBlocks(data: seq<Byte>, ghost offsets: seq<nat>)
    returns (blocks: seq<UnwindBlock>, p: nat, kind: FuncKind)
    requires Walkable(data, offsets)
    ensures |blocks| == |offsets| - 1 && p == offsets[|blocks|] && (kind == Root <==> p == |data|)
    ensures forall j :: 0 <= j < |blocks| ==> blocks[j] == UnwindBlock(offsets[j], 4 + 2 * data[offsets[j] + 2])
  {
    blocks, p, kind := [], 0, Root;
    while true
      invariant |blocks| < |offsets| - 1 && p == offsets[|blocks|] && (kind == Handler <==> |blocks| > 0)
      invariant forall j :: 0 <= j < |blocks| ==> blocks[j] == UnwindBlock(offsets[j], 4 + 2 * data[offsets[j] + 2])
      decreases |offsets| - |blocks|
    {
      assert LeadsOn(data, offsets, |blocks|);
      var reportedXdataSize, totalXdataSize := GetXdataSize(data, p);
      blocks := blocks + [UnwindBlock(p, reportedXdataSize)];
      p := p + totalXdataSize;
      if p == |data| {
        assert kind == Root;
        break;
      }
      kind := Handler;
      if data[p] % 8 != 1 {
        break;
      }
    }
  }

  lemma AllocatesFromBlocks(s: Section, hotCodeSize: nat, blocks: seq<UnwindBlock>, calls: seq<Allocation>)
    requires s.Valid() && |blocks| == |s.entries| == |calls|
    requires forall j :: 0 <= j < |blocks| ==> blocks[j] == BlockOf(s, j)
    requires forall j :: 0 <= j < |blocks| ==> calls[j] == AllocationWith(s.trailer, hotCodeSize, blocks[j], j)
    ensures AllocatesAll(s, hotCodeSize, calls)
  {
  }

  method RegisterEHFrames(data: seq<Byte>, hotCodeSize: nat, ghost s: Section)
    returns (allocations: seq<Allocation>, ehCount: Option<nat>, clauses: seq<seq<nat>>)
    requires s.Valid() && data == s.Bytes()
    ensures AllocatesAll(s, hotCodeSize, allocations)
    ensures ehCount == if s.trailer.None? then None else Some(|s.trailer.value.clauses|)
    ensures clauses == if s.trailer.None? then [] else s.trailer.value.clauses
  {
    var blocks, p, kind := CollectBlocksOf(data, s);
    if kind == Root {
      var block := blocks[|blocks| - 1];
      allocations := [Allocation(0, hotCodeSize, block.size, block.start, Root)];
      ehCount, clauses := None, [];
    } else {
      allocations, ehCount, clauses := RegisterFunclets(data, p, blocks, hotCodeSize, s.trailer.value);
    }
    AllocatesFromBlocks(s, hotCodeSize, blocks, allocations);
  }

  method CollectBlocksOf(data: seq<Byte>, ghost s: Section) returns (blocks: seq<UnwindBlock>, p: nat, kind: FuncKind)
    requires s.Valid() && data == s.Bytes()
    ensures |blocks| == |s.entries| && forall j :: 0 <= j < |blocks| ==> blocks[j] == BlockOf(s, j)
    ensures if s.trailer.None? then kind == Root else kind == Handler && TrailerAt(data, p, s.trailer.value.Words())
  {
    SectionStands(s, data);
    ghost var offsets := SectionIsWalkable(s, data);
    blocks, p, kind := CollectUnwindBlocks(data, offsets);
    AfterEntries(s);
  }

  /** What follows the entries: the sentinel, the end offsets and the clauses. */
  method RegisterFunclets(data: seq<Byte>, p: nat, blocks: seq<UnwindBlock>, hotCodeSize: nat, ghost t: Trailer)
    returns (allocations: seq<Allocation>, ehCount: Option<nat>, clauses: seq<seq<nat>>)
    requires |t.endOffsets| == |blocks| > 0 && TrailerAt(data, p, t.Words())
    requires forall i :: 0 <= i < |t.clauses| ==> |t.clauses[i]| == CLAUSE_WORDS
    ensures |allocations| == |blocks|
    ensures forall j :: 0 <= j < |blocks| ==> allocations[j] == AllocationWith(Some(t), hotCodeSize, blocks[j], j)
    ensures ehCount == Some(|t.clauses|) && clauses == t.clauses
  {
    assert ReadWord(data, p) == SENTINEL by { TrailerWord(data, p, t.Words(), 0); }
    allocations := AllocateUnwindInfo(data, p, blocks, t, hotCodeSize);
    var numClauses;
    numClauses, clauses := ReadClauses(data, p, |blocks|, t);
    ehCount := Some(numClauses);
  }

  /** The clause count and the clauses, after the sentinel, the funclet count and n end offsets. */
  method ReadClauses(data: seq<Byte>, p: nat, n: nat, ghost t: Trailer)
    returns (numClauses: nat, clauses: seq<seq<nat>>)
    requires |t.endOffsets| == n > 0 && TrailerAt(data, p, t.Words())
    requires forall i :: 0 <= i < |t.clauses| ==> |t.clauses[i]| == CLAUSE_WORDS
    ensures numClauses == |t.clauses| && clauses == t.clauses
  {
    TrailerWord(data, p, t.Words(), 2 + n);
    numClauses := ReadWord(data, p + 4 * (2 + n));
    clauses := [];
    for c := 0 to numClauses
      invariant clauses == t.clauses[..c]
    {
      ClauseInTrailer(data, p, t, c);
      clauses := clauses + [ReadClause(data, p + 4 * (3 + n + CLAUSE_WORDS * c))];
    }
  }

  /** The loop over the function and its funclets: each ends where the next starts. */
  method AllocateUnwindInfo(data: seq<Byte>, p: nat, blocks: seq<UnwindBlock>, ghost t: Trailer, ghost hotCodeSize: nat)
    returns (allocations: seq<Allocation>)
    requires |t.endOffsets| == |blocks| > 0 && TrailerAt(data, p, t.Words())
    ensures |allocations| == |blocks|
    ensures forall j :: 0 <= j < |blocks| ==> allocations[j] == AllocationWith(Some(t), hotCodeSize, blocks[j], j)
  {
    allocations := [];
    TrailerWord(data, p, t.Words(), 1);
    var numFunclets := ReadWord(data, p + 4);
    var startOffset, funcKind := 0, Root;
    for i := 0 to numFunclets + 1
      invariant |allocations| == i
      invariant startOffset == (if i == 0 then 0 else t.endOffsets[i - 1])
      invariant funcKind == (if i == 0 then Root else Handler)
      invariant forall j :: 0 <= j < i ==> allocations[j] == AllocationWith(Some(t), hotCodeSize, blocks[j], j)
    {
      TrailerWord(data, p, t.Words(), 2 + i);
      var endOffset := ReadWord(data, p + 4 * (2 + i));
      var block := blocks[i];
      allocations := allocations + [Allocation(startOffset, endOffset, block.size, block.start, funcKind)];
      funcKind, startOffset := Handler, endOffset;
    }
  }

  function ReadClause(data: seq<Byte>, p: nat): (ws: seq<nat>)
    requires p + 4 * CLAUSE_WORDS <= |data|
    ensures |ws| == CLAUSE_WORDS && forall j :: 0 <= j < CLAUSE_WORDS ==> ws[j] == ReadWord(data, p + 4 * j)
  {
    seq(CLAUSE_WORDS, j requires 0 <= j < CLAUSE_WORDS => ReadWord(data, p + 4 * j))
  }

  lemma TrailerWord(data: seq<Byte>, p: nat, ws: seq<nat>, i: nat)
    requires TrailerAt(data, p, ws) && i < |ws|
    ensures p + 4 * i + 4 <= |data| && ReadWord(data, p + 4 * i) == ws[i]
  {
    WordsBytesAt(ws, i);
    assert data[p + 4 * i..p + 4 * i + 4] == data[p..][4 * i..4 * i + 4];
    WordRoundTrip(data, p + 4 * i, ws[i]);
  }

  lemma ClauseInTrailer(data: seq<Byte>, p: nat, t: Trailer, c: nat)
    requires |t.endOffsets| > 0 && TrailerAt(data, p, t.Words()) && c < |t.clauses|
    requires forall i :: 0 <= i < |t.clauses| ==> |t.clauses[i]| == CLAUSE_WORDS
    ensures var q := p + 4 * (3 + |t.endOffsets| + CLAUSE_WORDS * c);
            q + 4 * CLAUSE_WORDS <= |data| && ReadClause(data, q) == t.clauses[c]
  {
    var ws, first := t.Words(), 3 + |t.endOffsets| + CLAUSE_WORDS * c;
    ClauseWordsAt(t.clauses, c, 5);
    TrailerWord(data, p, ws, first + 5);
    forall j | 0 <= j < CLAUSE_WORDS
      ensures p + 4 * (first + j) + 4 <= |data| && ReadWord(data, p + 4 * first + 4 * j) == t.clauses[c][j]
    {
      ClauseWordsAt(t.clauses, c, j);
      assert ws[first + j] == ClauseWords(t.clauses)[CLAUSE_WORDS * c + j];
      TrailerWord(data, p, ws, first + j);
    }
  }

  // ---------------------------------------------------------------------------
  // What the calls amount to
  // ---------------------------------------------------------------------------

  /** Loading may fill in the runtime function pointers, and nothing else that the passes look at. */
  ghost predicate SameUpToRelocation(s: Section, s': Section)
  {
    && |s.entries| == |s'.entries| && s.trailer == s'.trailer
    && forall i :: 0 <= i < |s.entries| ==>
         s'.entries[i] == s.entries[i].(runtimeFunction := s'.entries[i].runtimeFunction)
  }

  /** What is reserved from the object file is what is later allocated from memory, call by call. */
  lemma ReservedIsAllocated(s: Section, s': Section, hotCodeSize: nat, rs: seq<Reservation>, allocs: seq<Allocation>)
    requires s.Valid() && s'.Valid() && SameUpToRelocation(s, s')
    requires ReservesAll(s, rs) && AllocatesAll(s', hotCodeSize, allocs)
    ensures |rs| == |allocs|
    ensures forall i :: 0 <= i < |rs| ==> rs[i] == Reservation(allocs[i].kind == Handler, allocs[i].unwindSize)
  {
  }

  /** The code ranges follow each other from 0 to the last end offset, the first is the root and the
      rest are handlers. */
  lemma AllocationsFollow(s: Section, hotCodeSize: nat, allocs: seq<Allocation>)
    requires s.Valid() && AllocatesAll(s, hotCodeSize, allocs)
    ensures allocs[0].start == 0
    ensures forall i :: 0 <= i < |allocs| - 1 ==> Meets(allocs, i)
    ensures allocs[|allocs| - 1].end ==
            if s.trailer.None? then hotCodeSize else s.trailer.value.endOffsets[|s.entries| - 1]
    ensures forall i :: 0 <= i < |allocs| ==> (allocs[i].kind == Root <==> i == 0)
  {
    forall i | 0 <= i < |allocs| - 1 ensures Meets(allocs, i) {
      assert allocs[i] == AllocationOf(s, hotCodeSize, i) && allocs[i + 1] == AllocationOf(s, hotCodeSize, i + 1);
    }
  }

  /** Each code range ends where or after the one before ends. */
  ghost predicate EndsAscend(s: Section)
    requires s.Valid()
  {
    s.trailer.None? || forall i :: 0 < i < |s.entries| ==>
      s.trailer.value.endOffsets[i - 1] <= s.trailer.value.endOffsets[i]
  }

  /** No range ends before it starts, and ranges do not overlap. */
  ghost predicate InOrder(allocs: seq<Allocation>)
  {
    && (forall i :: 0 <= i < |allocs| ==> allocs[i].start <= allocs[i].end)
    && (forall i, j :: 0 <= i < j < |allocs| ==> allocs[i].end <= allocs[j].start)
  }

  predicate InRange(a: Allocation, offset: nat)
  {
    a.start <= offset < a.end
  }

  /** The next range starts where range k ends. */
  predicate Meets(allocs: seq<Allocation>, k: nat)
  {
    k + 1 < |allocs| && allocs[k].end == allocs[k + 1].start
  }

  lemma {:induction false} EndsInOrder(allocs: seq<Allocation>, i: nat, j: nat)
    requires i < j < |allocs|
    requires forall k :: 0 <= k < |allocs| ==> allocs[k].start <= allocs[k].end
    requires forall k :: 0 <= k < |allocs| - 1 ==> Meets(allocs, k)
    ensures allocs[i].end <= allocs[j].start
  {
    assert Meets(allocs, j - 1);
    if i + 1 < j {
      EndsInOrder(allocs, i, j - 1);
    }
  }

  lemma {:induction false} SomeRangeHolds(allocs: seq<Allocation>, n: nat, offset: nat) returns (i: nat)
    requires 0 < n <= |allocs| && allocs[0].start == 0 && offset < allocs[n - 1].end
    requires forall k :: 0 <= k < |allocs| - 1 ==> Meets(allocs, k)
    ensures i < n && InRange(allocs[i], offset)
  {
    i := n - 1;
    if offset < allocs[i].start {
      assert Meets(allocs, i - 1);
      i := SomeRangeHolds(allocs, n - 1, offset);
    }
  }

  /** Range i holds the offset and no other range does. */
  ghost predicate OnlyHolder(allocs: seq<Allocation>, i: nat, offset: nat)
  {
    && i < |allocs| && InRange(allocs[i], offset)
    && forall j :: 0 <= j < |allocs| && InRange(allocs[j], offset) ==> j == i
  }

  ghost predicate InExactlyOne(allocs: seq<Allocation>, offset: nat)
  {
    exists i: nat :: OnlyHolder(allocs, i, offset)
  }

  lemma OrderedHolder(allocs: seq<Allocation>, i: nat, offset: nat)
    requires InOrder(allocs) && i < |allocs| && InRange(allocs[i], offset)
    ensures OnlyHolder(allocs, i, offset)
  {
  }

  lemma ForwardRangesInOrder(allocs: seq<Allocation>)
    requires forall k :: 0 <= k < |allocs| ==> allocs[k].start <= allocs[k].end
    requires forall k :: 0 <= k < |allocs| - 1 ==> Meets(allocs, k)
    ensures InOrder(allocs)
  {
    forall i, j | 0 <= i < j < |allocs| ensures allocs[i].end <= allocs[j].start {
      EndsInOrder(allocs, i, j);
    }
  }

  /** The code ranges are in order without overlap if and only if the section's end offsets ascend, and
      then every offset of the code lies in exactly one range. */
  lemma AllocationsTile(s: Section, hotCodeSize: nat, allocs: seq<Allocation>)
    requires s.Valid() && AllocatesAll(s, hotCodeSize, allocs)
    ensures InOrder(allocs) <==> EndsAscend(s)
    ensures EndsAscend(s) ==>
              forall offset: nat :: offset < allocs[|allocs| - 1].end ==> InExactlyOne(allocs, offset)
  {
    AllocationsFollow(s, hotCodeSize, allocs);
    AscendMeansForward(s, hotCodeSize, allocs);
    if EndsAscend(s) {
      ForwardRangesInOrder(allocs);
      forall offset: nat | offset < allocs[|allocs| - 1].end ensures InExactlyOne(allocs, offset) {
        var i := SomeRangeHolds(allocs, |allocs|, offset);
        OrderedHolder(allocs, i, offset);
      }
    }
  }

  lemma AscendMeansForward(s: Section, hotCodeSize: nat, allocs: seq<Allocation>)
    requires s.Valid() && AllocatesAll(s, hotCodeSize, allocs)
    ensures EndsAscend(s) <==> forall i :: 0 <= i < |allocs| ==> allocs[i].start <= allocs[i].end
  {
    if s.trailer.Some? {
      forall i | 0 < i < |allocs|
        ensures allocs[i].start <= allocs[i].end <==>
                s.trailer.value.endOffsets[i - 1] <= s.trailer.value.endOffsets[i]
      {
        assert allocs[i] == AllocationOf(s, hotCodeSize, i);
      }
    }
  }

  /** Allocation i's unwind block is entry i's reported bytes, and it ends before the next one starts. */
  lemma BlocksAreEntries(s: Section, hotCodeSize: nat, allocs: seq<Allocation>, i: nat)
    requires s.Valid() && AllocatesAll(s, hotCodeSize, allocs) && i < |allocs|
    ensures var a := allocs[i];
            && a.unwindBlock + a.unwindSize <= |s.Bytes()|
            && s.Bytes()[a.unwindBlock..a.unwindBlock + a.unwindSize] == s.entries[i].Reported()
            && (i + 1 < |allocs| ==> a.unwindBlock + a.unwindSize <= allocs[i + 1].unwindBlock)
  {
    ReportedSeen(s, i);
  }
}
