/** Read-only data sections are carved out of one block that is reserved in advance. */
module DataSections {
  import opened Options
  import Multiples

  const TWO_TO_THE_64 := 0x1_0000_0000_0000_0000

  datatype Request = Request(size: nat, alignment: nat)

  datatype Section = Section(start: nat, size: nat, alignment: nat)

  // ---------------------------------------------------------------------------
  // Placement on values
  // ---------------------------------------------------------------------------

  predicate AllPositive(rs: seq<Request>)
  {
    forall i :: 0 <= i < |rs| ==> rs[i].alignment > 0
  }

  /** Alignment counts from the block in the prejit case, and from address 0 otherwise. */
  function BaseOf(prejit: bool, block: nat): (base: nat)
    ensures base <= block
  {
    if prejit then block else 0
  }

  predicate AlignedFrom(base: nat, p: nat, alignment: nat)
    requires base <= p && alignment > 0
  {
    (p - base) % alignment == 0
  }

  /** Skip to the next address aligned from the base. */
  function Place(base: nat, cursor: nat, alignment: nat): (p: nat)
    requires base <= cursor && alignment > 0
    ensures cursor <= p < cursor + alignment
  {
    var offset := (cursor - base) % alignment;
    if offset > 0 then cursor + (alignment - offset) else cursor
  }

  /** It is the first such address. */
  lemma PlaceIsAligned(base: nat, cursor: nat, alignment: nat)
    requires base <= cursor && alignment > 0
    ensures AlignedFrom(base, Place(base, cursor, alignment), alignment)
    ensures forall q: nat :: cursor <= q && AlignedFrom(base, q, alignment) ==> Place(base, cursor, alignment) <= q
  {
    var d, p := cursor - base, Place(base, cursor, alignment);
    Multiples.DivMod(d, alignment);
    if d % alignment > 0 {
      Multiples.NextMultiple(d / alignment, d / alignment + 1, alignment);
      Multiples.DivModUnique(p - base, d / alignment + 1, 0, alignment);
    }
    forall q: nat | cursor <= q && AlignedFrom(base, q, alignment) ensures p <= q {
      if q < p {
        Multiples.MultiplesApart(q - base, p - base, alignment);
      }
    }
  }

  /** The sections of a run of requests, and where the free space starts afterwards. */
  function PlaceAll(base: nat, cursor: nat, rs: seq<Request>): (r: (seq<Section>, nat))
    requires base <= cursor && AllPositive(rs)
    ensures r.1 >= cursor && |r.0| == |rs|
  {
    if rs == [] then ([], cursor)
    else
      var n := |rs| - 1;
      var (sections, c) := PlaceAll(base, cursor, rs[..n]);
      var p := Place(base, c, rs[n].alignment);
      (sections + [Section(p, rs[n].size, rs[n].alignment)], p + rs[n].size)
  }

  lemma PlaceAllSnoc(base: nat, cursor: nat, rs: seq<Request>, r: Request)
    requires base <= cursor && AllPositive(rs) && r.alignment > 0
    ensures AllPositive(rs + [r])
    ensures var p := Place(base, PlaceAll(base, cursor, rs).1, r.alignment);
            PlaceAll(base, cursor, rs + [r]) ==
            (PlaceAll(base, cursor, rs).0 + [Section(p, r.size, r.alignment)], p + r.size)
  {
    assert (rs + [r])[..|rs|] == rs;
  }

  /** What the requests may take at most: each its size and all but one byte of its alignment. */
  function Budget(rs: seq<Request>): nat
    requires AllPositive(rs)
  {
    if rs == [] then 0
    else Budget(rs[..|rs| - 1]) + rs[|rs| - 1].size + rs[|rs| - 1].alignment - 1
  }

  /** A section for a request, placed after some end: aligned from the base, as large as requested,
      with less padding than its alignment. */
  predicate Placed(base: nat, end: nat, r: Request, section: Section)
    requires r.alignment > 0
  {
    && section.size == r.size && section.alignment == r.alignment
    && end <= section.start < end + r.alignment
    && base <= section.start && AlignedFrom(base, section.start, r.alignment)
  }

  /** Each section is placed after the one before it, and the free space starts after the last. */
  ghost predicate LaidOut(base: nat, cursor: nat, rs: seq<Request>, sections: seq<Section>, end: nat)
    requires AllPositive(rs)
  {
    && |sections| == |rs|
    && (forall i :: 0 <= i < |rs| ==> Placed(base, EndBefore(cursor, sections, i), rs[i], sections[i]))
    && end == EndBefore(cursor, sections, |rs|)
  }

  function EndBefore(cursor: nat, sections: seq<Section>, i: nat): nat
    requires i <= |sections|
  {
    if i == 0 then cursor else sections[i - 1].start + sections[i - 1].size
  }

  lemma {:induction false} PlaceAllLaysOut(base: nat, cursor: nat, rs: seq<Request>)
    requires base <= cursor && AllPositive(rs)
    ensures LaidOut(base, cursor, rs, PlaceAll(base, cursor, rs).0, PlaceAll(base, cursor, rs).1)
    ensures PlaceAll(base, cursor, rs).1 <= cursor + Budget(rs)
  {
    if rs != [] {
      var n := |rs| - 1;
      var (sections, c) := PlaceAll(base, cursor, rs[..n]);
      var all := PlaceAll(base, cursor, rs).0;
      PlaceAllLaysOut(base, cursor, rs[..n]);
      PlaceIsAligned(base, c, rs[n].alignment);
      LastLaidOut(base, cursor, rs, sections, c, all);
    }
  }

  /** One more section placed after those laid out. */
  lemma LastLaidOut(base: nat, cursor: nat, rs: seq<Request>, sections: seq<Section>, end: nat, all: seq<Section>)
    requires rs != [] && AllPositive(rs) && |all| == |rs| && all[..|rs| - 1] == sections
    requires LaidOut(base, cursor, rs[..|rs| - 1], sections, end) && Placed(base, end, rs[|rs| - 1], all[|rs| - 1])
    ensures LaidOut(base, cursor, rs, all, all[|rs| - 1].start + all[|rs| - 1].size)
  {
    var n := |rs| - 1;
    forall i | 0 <= i < |rs| ensures Placed(base, EndBefore(cursor, all, i), rs[i], all[i]) {
      if i < n {
        StillPlaced(base, cursor, rs, sections, end, all, i);
      } else {
        assert n > 0 ==> all[n - 1] == sections[n - 1];
      }
    }
  }

  lemma StillPlaced(base: nat, cursor: nat, rs: seq<Request>, sections: seq<Section>, end: nat,
                    all: seq<Section>, i: nat)
    requires AllPositive(rs) && |all| == |rs| && i < |rs| - 1 && all[..|rs| - 1] == sections
    requires LaidOut(base, cursor, rs[..|rs| - 1], sections, end)
    ensures Placed(base, EndBefore(cursor, all, i), rs[i], all[i])
  {
    assert rs[..|rs| - 1][i] == rs[i] && all[i] == sections[i] && (i > 0 ==> all[i - 1] == sections[i - 1]);
  }

  ghost predicate InOrder(cursor: nat, sections: seq<Section>)
  {
    forall i :: 0 <= i < |sections| ==> EndBefore(cursor, sections, i) <= sections[i].start
  }

  lemma {:induction false} EndsGrow(cursor: nat, sections: seq<Section>, i: nat, j: nat)
    requires InOrder(cursor, sections) && i <= j <= |sections|
    ensures EndBefore(cursor, sections, i) <= EndBefore(cursor, sections, j)
  {
    if i < j {
      EndsGrow(cursor, sections, i, j - 1);
    }
  }

  lemma LaidOutInOrder(base: nat, cursor: nat, rs: seq<Request>, sections: seq<Section>, end: nat)
    requires AllPositive(rs) && LaidOut(base, cursor, rs, sections, end)
    ensures InOrder(cursor, sections) && end == EndBefore(cursor, sections, |sections|)
  {
    forall k | 0 <= k < |rs| ensures EndBefore(cursor, sections, k) <= sections[k].start {
      assert Placed(base, EndBefore(cursor, sections, k), rs[k], sections[k]);
    }
  }

  /** Laid-out sections are in order and pairwise disjoint, from the cursor to the end. */
  lemma SectionsDisjoint(base: nat, cursor: nat, rs: seq<Request>, sections: seq<Section>, end: nat, i: nat, j: nat)
    requires AllPositive(rs) && LaidOut(base, cursor, rs, sections, end) && i < j <= |rs|
    ensures cursor <= sections[i].start && sections[i].start + sections[i].size <= end
    ensures j < |rs| ==> sections[i].start + sections[i].size <= sections[j].start
  {
    LaidOutInOrder(base, cursor, rs, sections, end);
    InOrderApart(cursor, sections, i, j);
  }

  lemma InOrderApart(cursor: nat, sections: seq<Section>, i: nat, j: nat)
    requires InOrder(cursor, sections) && i < j <= |sections|
    ensures cursor <= sections[i].start
    ensures sections[i].start + sections[i].size <= EndBefore(cursor, sections, |sections|)
    ensures j < |sections| ==> sections[i].start + sections[i].size <= sections[j].start
  {
    EndsGrow(cursor, sections, 0, i);
    EndsGrow(cursor, sections, i + 1, j);
    EndsGrow(cursor, sections, j, |sections|);
  }

  lemma {:induction false} BudgetPrefix(rs: seq<Request>, n: nat)
    requires AllPositive(rs) && n <= |rs|
    ensures Budget(rs[..n]) <= Budget(rs)
    decreases |rs|
  {
    if n < |rs| {
      assert rs[..|rs| - 1][..n] == rs[..n];
      BudgetPrefix(rs[..|rs| - 1], n);
    } else {
      assert rs[..n] == rs;
    }
  }

  /** When the budget is reserved, no request along the way leaves the block: the assertion after
      every allocation holds. */
  lemma BudgetSuffices(base: nat, block: nat, reserved: nat, rs: seq<Request>, n: nat)
    requires base <= block && AllPositive(rs) && n <= |rs| && Budget(rs) <= reserved
    ensures PlaceAll(base, block, rs[..n]).1 <= block + reserved
  {
    PlaceAllLaysOut(base, block, rs[..n]);
    BudgetPrefix(rs, n);
  }

  /** What a section may rely on: its address is a multiple of the alignment, or its distance from the block in
      the prejit case, where the image will place the block. */
  predicate WellAligned(prejit: bool, block: nat, start: nat, alignment: nat)
  {
    alignment > 0 && if prejit then start >= block && (start - block) % alignment == 0 else start % alignment == 0
  }

  ghost predicate AllWellAligned(prejit: bool, block: nat, rs: seq<Request>, sections: seq<Section>)
  {
    |sections| == |rs| && forall i :: 0 <= i < |rs| ==> WellAligned(prejit, block, sections[i].start, rs[i].alignment)
  }

  lemma PlaceIsWellAligned(prejit: bool, block: nat, cursor: nat, alignment: nat)
    requires block <= cursor && alignment > 0
    ensures WellAligned(prejit, block, Place(BaseOf(prejit, block), cursor, alignment), alignment)
  {
    PlaceIsAligned(BaseOf(prejit, block), cursor, alignment);
  }

  lemma LaidOutIsWellAligned(prejit: bool, block: nat, rs: seq<Request>, sections: seq<Section>, end: nat)
    requires AllPositive(rs) && LaidOut(BaseOf(prejit, block), block, rs, sections, end)
    ensures AllWellAligned(prejit, block, rs, sections)
  {
    forall i | 0 <= i < |rs| ensures WellAligned(prejit, block, sections[i].start, rs[i].alignment) {
      SectionsDisjoint(BaseOf(prejit, block), block, rs, sections, end, i, |rs|);
      assert Placed(BaseOf(prejit, block), EndBefore(block, sections, i), rs[i], sections[i]);
    }
  }

  lemma RunIsLaidOut(prejit: bool, block: nat, rs: seq<Request>)
    requires AllPositive(rs)
    ensures var (sections, end) := PlaceAll(BaseOf(prejit, block), block, rs);
            LaidOut(BaseOf(prejit, block), block, rs, sections, end) && AllWellAligned(prejit, block, rs, sections)
  {
    var (sections, end) := PlaceAll(BaseOf(prejit, block), block, rs);
    PlaceAllLaysOut(BaseOf(prejit, block), block, rs);
    LaidOutIsWellAligned(prejit, block, rs, sections, end);
  }

  // ---------------------------------------------------------------------------
  // The memory manager
  // ---------------------------------------------------------------------------

  class EEMemoryManager {
    const prejit: bool
    var hotCodeBlock: nat
    var readOnlyDataBlock: nat
    var readOnlyDataUnallocated: nat
    var readOnlyDataSize: nat
    var stackMapBlock: Option<nat>
    var stackMapSize: nat

    ghost var requests: seq<Request>

    function Base(): nat
      reads this
    {
      BaseOf(prejit, readOnlyDataBlock)
    }

    /** The free space starts where the requests so far leave it, inside the reserved block. */
    ghost predicate Valid()
      reads this
    {
      && AllPositive(requests)
      && readOnlyDataUnallocated == PlaceAll(Base(), readOnlyDataBlock, requests).1
      && readOnlyDataUnallocated <= readOnlyDataBlock + readOnlyDataSize < TWO_TO_THE_64
    }

    ghost function Sections(): seq<Section>
      requires AllPositive(requests)
      reads this
    {
      PlaceAll(Base(), readOnlyDataBlock, requests).0
    }

    constructor (prejit: bool)
      ensures this.prejit == prejit && stackMapBlock == None
    {
      this.prejit := prejit;
      hotCodeBlock, readOnlyDataBlock, readOnlyDataUnallocated, readOnlyDataSize := 0, 0, 0, 0;
      stackMapBlock, stackMapSize, requests := None, 0, [];
    }

    /** The blocks are the ones the execution engine hands out for the request. */
    method ReserveAllocationSpace(codeAlign: nat, roDataSize: nat, roDataAlign: nat, rwDataSize: nat,
                                  hotBlock: nat, roDataBlock: nat)
      returns (codeAlign16: bool, roDataAlign16: bool)
      requires codeAlign <= 16 && roDataAlign <= 16 && rwDataSize == 0
      requires roDataBlock + roDataSize < TWO_TO_THE_64
      modifies this
      ensures Valid() && requests == []
      ensures hotCodeBlock == hotBlock && readOnlyDataBlock == roDataBlock && readOnlyDataSize == roDataSize
      ensures stackMapBlock == old(stackMapBlock) && stackMapSize == old(stackMapSize)
      ensures (codeAlign16 <==> codeAlign == 16) && (roDataAlign16 <==> roDataAlign == 16)
    {
      codeAlign16 := codeAlign == 16;
      roDataAlign16 := false;
      if roDataAlign == 16 {
        roDataAlign16 := true;
      }
      hotCodeBlock := hotBlock;
      readOnlyDataBlock := roDataBlock;
      readOnlyDataUnallocated := roDataBlock;
      readOnlyDataSize := roDataSize;
      requests := [];
    }

    method AllocateDataSection(size: nat, alignment: nat, isStackMaps: bool) returns (result: nat)
      requires Valid() && alignment > 0 && (prejit ==> alignment <= 16)
      requires Place(Base(), readOnlyDataUnallocated, alignment) + size <= readOnlyDataBlock + readOnlyDataSize
      requires isStackMaps ==> stackMapBlock == None
      modifies this
      ensures Valid() && requests == old(requests) + [Request(size, alignment)]
      ensures Sections() == old(Sections()) + [Section(result, size, alignment)]
      ensures WellAligned(prejit, readOnlyDataBlock, result, alignment)
      ensures readOnlyDataBlock == old(readOnlyDataBlock) && readOnlyDataSize == old(readOnlyDataSize)
      ensures hotCodeBlock == old(hotCodeBlock)
      ensures if isStackMaps then stackMapBlock == Some(result) && stackMapSize == size
              else stackMapBlock == old(stackMapBlock) && stackMapSize == old(stackMapSize)
    {
      PlaceAllSnoc(Base(), readOnlyDataBlock, requests, Request(size, alignment));
      PlaceIsWellAligned(prejit, readOnlyDataBlock, readOnlyDataUnallocated, alignment);
      result := Pad(alignment);
      readOnlyDataUnallocated := readOnlyDataUnallocated + size;
      requests := requests + [Request(size, alignment)];
      if isStackMaps {
        stackMapSize := size;
        stackMapBlock := Some(result);
      }
    }

    /** Padding for alignment needs. */
    method Pad(alignment: nat) returns (padded: nat)
      requires readOnlyDataBlock <= readOnlyDataUnallocated && alignment > 0
      modifies this`readOnlyDataUnallocated
      ensures padded == readOnlyDataUnallocated == Place(Base(), old(readOnlyDataUnallocated), alignment)
    {
      var offset;
      if prejit {
        offset := (readOnlyDataUnallocated - readOnlyDataBlock) % alignment;
      } else {
        offset := readOnlyDataUnallocated % alignment;
      }
      if offset > 0 {
        readOnlyDataUnallocated := readOnlyDataUnallocated + (alignment - offset);
      }
      padded := readOnlyDataUnallocated;
    }

    /** Any run of requests whose budget was reserved goes through. */
    method AllocateAll(rs: seq<Request>)
      requires Valid() && requests == [] && AllPositive(rs) && Budget(rs) <= readOnlyDataSize
      requires prejit ==> forall i :: 0 <= i < |rs| ==> rs[i].alignment <= 16
      modifies this
      ensures Valid() && requests == rs
      ensures LaidOut(Base(), readOnlyDataBlock, rs, Sections(), readOnlyDataUnallocated)
      ensures AllWellAligned(prejit, readOnlyDataBlock, rs, Sections())
    {
      for i := 0 to |rs|
        invariant Valid() && requests == rs[..i] && Budget(rs) <= readOnlyDataSize
      {
        BudgetSuffices(Base(), readOnlyDataBlock, readOnlyDataSize, rs, i + 1);
        assert rs[..i + 1][..i] == rs[..i];
        var _ := AllocateDataSection(rs[i].size, rs[i].alignment, false);
        assert rs[..i] + [Request(rs[i].size, rs[i].alignment)] == rs[..i + 1];
      }
      assert rs[..|rs|] == rs;
      RunIsLaidOut(prejit, readOnlyDataBlock, rs);
    }
  }
}
