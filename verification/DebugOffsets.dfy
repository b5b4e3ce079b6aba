/** The map from native to IL offsets: one pass over the line table counts its entries, a second one
    fills them in, and rows that repeat the IL offset of the row before are skipped. */
module DebugOffsets {

  const NO_OFFSET := 0xFFFF_FFFF
  const TWO_TO_THE_32 := 0x1_0000_0000

  /** A row of the line table; the line is the IL offset, and column 1 marks a call. */
  datatype Row = Row(address: nat, line: nat, column: nat)

  datatype Source = CallInstruction | StackEmpty

  datatype Mapping = Mapping(nativeOffset: nat, ilOffset: nat, source: Source)

  // ---------------------------------------------------------------------------
  // The map on values
  // ---------------------------------------------------------------------------

  /** The IL offset a pass compares the next row with. */
  function LastLine(rows: seq<Row>): nat
  {
    if rows == [] then NO_OFFSET else rows[|rows| - 1].line
  }

  function MappingOf(r: Row): Mapping
  {
    Mapping(r.address % TWO_TO_THE_32, r.line, if r.column == 1 then CallInstruction else StackEmpty)
  }

  function Mappings(rows: seq<Row>): seq<Mapping>
  {
    if rows == [] then []
    else
      var init, last := rows[..|rows| - 1], rows[|rows| - 1];
      Mappings(init) + if last.line != LastLine(init) then [MappingOf(last)] else []
  }

  // ---------------------------------------------------------------------------
  // The program
  // ---------------------------------------------------------------------------

  /** The array sent to the execution engine, or nothing when there are no entries. */
  method GetOffsetMappings(rows: seq<Row>) returns (om: array?<Mapping>)
    ensures om == null <==> Mappings(rows) == []
    ensures om != null ==> fresh(om) && om[..] == Mappings(rows)
  {
    var lastDebugOffset, numDebugRanges := NO_OFFSET, 0;
    for i := 0 to |rows|
      invariant lastDebugOffset == LastLine(rows[..i]) && numDebugRanges == |Mappings(rows[..i])|
    {
      assert rows[..i + 1][..i] == rows[..i];
      if rows[i].line != lastDebugOffset {
        numDebugRanges := numDebugRanges + 1;
        lastDebugOffset := rows[i].line;
      }
    }
    assert rows[..|rows|] == rows;
    om := null;
    if numDebugRanges > 0 {
      om := Fill(rows, numDebugRanges);
    }
  }

  /** The second pass. */
  method Fill(rows: seq<Row>, numDebugRanges: nat) returns (om: array<Mapping>)
    requires numDebugRanges == |Mappings(rows)|
    ensures fresh(om) && om[..] == Mappings(rows)
  {
    var lastDebugOffset, currentDebugEntry := NO_OFFSET, 0;
    om := new Mapping[numDebugRanges];
    for i := 0 to |rows|
      invariant lastDebugOffset == LastLine(rows[..i])
      invariant currentDebugEntry == |Mappings(rows[..i])| <= om.Length
      invariant om[..currentDebugEntry] == Mappings(rows[..i])
    {
      assert rows[..i + 1][..i] == rows[..i];
      MappingsPrefix(rows, i + 1);
      if rows[i].line != lastDebugOffset {
        lastDebugOffset := rows[i].line;
        var isCall := rows[i].column == 1;
        om[currentDebugEntry] := Mapping(rows[i].address % TWO_TO_THE_32, rows[i].line,
                                         if isCall then CallInstruction else StackEmpty);
        currentDebugEntry := currentDebugEntry + 1;
      }
    }
    assert rows[..|rows|] == rows;
  }

  lemma {:induction false} MappingsPrefix(rows: seq<Row>, k: nat)
    requires k <= |rows|
    ensures Mappings(rows[..k]) <= Mappings(rows)
    decreases |rows|
  {
    if k < |rows| {
      assert rows[..|rows| - 1][..k] == rows[..k];
      MappingsPrefix(rows[..|rows| - 1], k);
    } else {
      assert rows[..k] == rows;
    }
  }

  // ---------------------------------------------------------------------------
  // Nothing is repeated, and what is lost
  // ---------------------------------------------------------------------------

  /** The last entry written carries the IL offset of the last row, unless no row had another one
      than the initial comparison value. */
  lemma {:induction false} LastMapping(rows: seq<Row>)
    requires rows != []
    ensures if Mappings(rows) == [] then forall i :: 0 <= i < |rows| ==> rows[i].line == NO_OFFSET
            else Mappings(rows)[|Mappings(rows)| - 1].ilOffset == LastLine(rows)
  {
    if |rows| > 1 {
      LastMapping(rows[..|rows| - 1]);
    }
  }

  /** Neighbouring entries differ in IL offset. */
  lemma {:induction false} NeighboursDiffer(rows: seq<Row>, k: nat)
    requires k + 1 < |Mappings(rows)|
    ensures Mappings(rows)[k].ilOffset != Mappings(rows)[k + 1].ilOffset
  {
    var init := rows[..|rows| - 1];
    if k + 1 < |Mappings(init)| {
      NeighboursDiffer(init, k);
    } else {
      LastMapping(init);
    }
  }

  /** At a row, the last entry written so far carries the row's IL offset. */
  ghost predicate Covered(rows: seq<Row>, i: nat)
    requires i < |rows|
  {
    var soFar := Mappings(rows[..i + 1]);
    soFar != [] && soFar[|soFar| - 1].ilOffset == rows[i].line
  }

  /** The map loses no row's IL offset if and only if the first row's is not the value the passes
      start their comparison with; later rows may have it. */
  lemma LosslessExactly(rows: seq<Row>)
    ensures (forall i :: 0 <= i < |rows| ==> Covered(rows, i)) <==> rows == [] || rows[0].line != NO_OFFSET
  {
    forall i | 0 <= i < |rows| && rows[0].line != NO_OFFSET ensures Covered(rows, i) {
      LastMapping(rows[..i + 1]);
      assert rows[..i + 1][0] == rows[0];
    }
    if rows != [] && rows[0].line == NO_OFFSET {
      var one := rows[..0 + 1];
      assert one[..|one| - 1] == [] && Mappings(one) == [];
      assert !Covered(rows, 0);
    }
  }

  /** A first row at IL offset 0xFFFFFFFF is lost, and no other first row is. */
  lemma FirstRowLost(row: Row)
    ensures Mappings([row]) == [] <==> row.line == 0xFFFF_FFFF
  {
    assert [row][..0] == [] && Mappings([row][..0]) == [];
  }

  // ---------------------------------------------------------------------------
  // Lookup by native offset
  // ---------------------------------------------------------------------------

  /** The entry a reader finds for a native offset: the last one at or before it. */
  function Lookup(ms: seq<Mapping>, native: nat): seq<Mapping>
  {
    if ms == [] then []
    else if ms[|ms| - 1].nativeOffset <= native then [ms[|ms| - 1]]
    else Lookup(ms[..|ms| - 1], native)
  }

  ghost predicate Ordered(rows: seq<Row>)
  {
    && (forall i, j :: 0 <= i < j < |rows| ==> rows[i].address < rows[j].address)
    && (forall i :: 0 <= i < |rows| ==> rows[i].address < TWO_TO_THE_32)
  }

  lemma {:induction false} MappingsFromRows(rows: seq<Row>, k: nat)
    requires k < |Mappings(rows)|
    ensures exists i :: 0 <= i < |rows| && Mappings(rows)[k] == MappingOf(rows[i])
  {
    var n := |rows| - 1;
    if k < |Mappings(rows[..n])| {
      MappingsFromRows(rows[..n], k);
      var i :| 0 <= i < n && Mappings(rows[..n])[k] == MappingOf(rows[..n][i]);
      assert rows[..n][i] == rows[i];
    } else {
      assert Mappings(rows)[k] == MappingOf(rows[n]);
    }
  }

  /** An entry tells where a row that does not repeat the IL offset before it starts, and says "call" exactly when
      that row was recorded for a call. */
  predicate Describes(m: Mapping, rows: seq<Row>, i: nat)
    requires i < |rows|
  {
    && m.ilOffset == rows[i].line && (rows[i].address < TWO_TO_THE_32 ==> m.nativeOffset == rows[i].address)
    && (m.source.CallInstruction? <==> rows[i].column == 1)
    && (i > 0 ==> rows[i - 1].line != rows[i].line)
  }

  lemma {:induction false} EntryDescribesRow(rows: seq<Row>, k: nat) returns (i: nat)
    requires k < |Mappings(rows)|
    ensures i < |rows| && Describes(Mappings(rows)[k], rows, i)
  {
    var n := |rows| - 1;
    if k < |Mappings(rows[..n])| {
      i := EntryDescribesRow(rows[..n], k);
      assert rows[..n][i] == rows[i] && (i > 0 ==> rows[..n][i - 1] == rows[i - 1]);
    } else {
      i := n;
      assert n > 0 ==> rows[..n][n - 1] == rows[n - 1];
    }
  }

  /** Every row that does not repeat the IL offset before it has its entry. */
  lemma {:induction false} RowHasEntry(rows: seq<Row>, i: nat) returns (k: nat)
    requires i < |rows| && rows[i].line != (if i == 0 then NO_OFFSET else rows[i - 1].line)
    ensures k < |Mappings(rows)| && Describes(Mappings(rows)[k], rows, i)
  {
    var n := |rows| - 1;
    if i < n {
      assert rows[..n][i] == rows[i] && (i > 0 ==> rows[..n][i - 1] == rows[i - 1]);
      k := RowHasEntry(rows[..n], i);
    } else {
      k := |Mappings(rows)| - 1;
      assert n > 0 ==> rows[..n][n - 1] == rows[n - 1];
    }
  }

  /** Entries written for rows beyond a native offset do not change what is found there. */
  lemma {:induction false} LookupStops(rows: seq<Row>, k: nat, native: nat)
    requires k <= |rows| && forall i :: k <= i < |rows| ==> native < rows[i].address < TWO_TO_THE_32
    ensures Lookup(Mappings(rows), native) == Lookup(Mappings(rows[..k]), native)
    decreases |rows|
  {
    if k < |rows| {
      var n := |rows| - 1;
      assert rows[..n][..k] == rows[..k];
      LookupStops(rows[..n], k, native);
      var ms := Mappings(rows);
      assert ms != Mappings(rows[..n]) ==> ms[..|ms| - 1] == Mappings(rows[..n]);
    } else {
      assert rows[..k] == rows;
    }
  }

  /** Entries written up to a row start at or before it. */
  lemma EntriesStartBefore(rows: seq<Row>, i: nat, k: nat)
    requires Ordered(rows) && i < |rows| && k < |Mappings(rows[..i + 1])|
    ensures Mappings(rows[..i + 1])[k].nativeOffset <= rows[i].address
  {
    var upTo := rows[..i + 1];
    MappingsFromRows(upTo, k);
    var j :| 0 <= j < |upTo| && Mappings(upTo)[k] == MappingOf(upTo[j]);
    assert upTo[j] == rows[j] && (j < i ==> rows[j].address < rows[i].address);
  }

  /** With increasing 32-bit addresses, a lookup at any native offset from a row up to the next one
      finds that row's IL offset, whenever the map is lossless. */
  lemma LookupFindsRow(rows: seq<Row>, i: nat, native: nat)
    requires Ordered(rows) && i < |rows| && rows[0].line != NO_OFFSET
    requires rows[i].address <= native && (i + 1 < |rows| ==> native < rows[i + 1].address)
    ensures |Lookup(Mappings(rows), native)| == 1 && Lookup(Mappings(rows), native)[0].ilOffset == rows[i].line
  {
    forall j | i + 1 <= j < |rows| ensures native < rows[j].address < TWO_TO_THE_32 {
      assert i + 1 < j ==> rows[i + 1].address < rows[j].address;
    }
    LookupStops(rows, i + 1, native);
    LosslessExactly(rows);
    assert Covered(rows, i);
    EntriesStartBefore(rows, i, |Mappings(rows[..i + 1])| - 1);
  }
}
