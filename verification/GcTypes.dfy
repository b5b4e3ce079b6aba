/** LLVM types as the GC-info code sees them, the recursive test for GC aggregates, and
    the walk that finds the GC pointers of a struct by pointer-sized jumps. */
module GcTypes {
  import Multiples

  const MANAGED_ADDRESS_SPACE := 1

  /** A struct carries its data layout: the offset of each field and its total size. */
  datatype Type =
    | Pointer(addressSpace: nat)
    | Primitive(size: nat)
    | Vector(scalar: Type, size: nat)
    | Array(element: Type, size: nat)
    | Struct(size: nat, fields: seq<Field>)

  datatype Field = Field(offset: nat, ty: Type)

  /** The primitive type a dive ends at, and where that leaf starts in the outermost struct. */
  datatype Leaf = Leaf(start: nat, ty: Type)

  function SizeOf(ty: Type, pointerSize: nat): nat
  {
    match ty
    case Pointer(_) => pointerSize
    case Primitive(size) => size
    case Vector(_, size) => size
    case Array(_, size) => size
    case Struct(size, _) => size
  }

  predicate IsGcPointer(ty: Type)
  {
    ty.Pointer? && ty.addressSpace == MANAGED_ADDRESS_SPACE
  }

  predicate IsGcAggregate(ty: Type)
    decreases ty, 0
  {
    match ty
    case Vector(scalar, _) => IsGcPointer(scalar)
    case Array(element, _) => IsGcPointer(element)
    case Struct(_, fields) => exists i :: 0 <= i < |fields| && IsGcType(fields[i].ty)
    case _ => false
  }

  predicate IsGcType(ty: Type)
    decreases ty, 1
  {
    IsGcPointer(ty) || IsGcAggregate(ty)
  }

  // ---------------------------------------------------------------------------
  // Layout
  // ---------------------------------------------------------------------------

  /** What a data layout guarantees: the first field is at 0, fields follow one another
      without overlap and end inside the struct, and no nested struct is empty. */
  predicate WellLaidOut(ty: Type, pointerSize: nat)
  {
    ty.Struct? ==>
      && |ty.fields| > 0
      && ty.fields[0].offset == 0
      && (forall i :: 0 <= i < |ty.fields| ==> WellLaidOut(ty.fields[i].ty, pointerSize))
      && (forall i :: 0 <= i < |ty.fields| ==> FieldEnd(ty.fields[i], pointerSize) <= ty.size)
      && (forall i, j :: 0 <= i < j < |ty.fields| ==>
            FieldEnd(ty.fields[i], pointerSize) <= ty.fields[j].offset)
  }

  function FieldEnd(f: Field, pointerSize: nat): nat
  {
    f.offset + SizeOf(f.ty, pointerSize)
  }

  /** The last field that starts at or before the offset. */
  function ElementContainingOffset(fields: seq<Field>, offset: nat): (i: nat)
    requires |fields| > 0 && fields[0].offset == 0
    ensures i < |fields| && fields[i].offset <= offset
    ensures forall k :: i < k < |fields| ==> fields[k].offset > offset
  {
    LastAtOrBefore(fields, offset, |fields| - 1)
  }

  function LastAtOrBefore(fields: seq<Field>, offset: nat, n: nat): (i: nat)
    requires n < |fields| && fields[0].offset == 0
    ensures i <= n && fields[i].offset <= offset
    ensures forall k :: i < k <= n ==> fields[k].offset > offset
  {
    if fields[n].offset <= offset then n else LastAtOrBefore(fields, offset, n - 1)
  }

  // ---------------------------------------------------------------------------
  // Reference definitions
  // ---------------------------------------------------------------------------

  /** Offsets of the GC-pointer leaves, by recursive flattening. */
  function GcLeaves(ty: Type, base: nat): seq<nat>
    decreases ty, 1, 0
  {
    match ty
    case Pointer(_) => if IsGcPointer(ty) then [base] else []
    case Struct(_, fields) => GcLeavesOfFields(ty, |fields|, base)
    case _ => []
  }

  /** The leaves of the first n fields of a struct. */
  function GcLeavesOfFields(ty: Type, n: nat, base: nat): seq<nat>
    requires ty.Struct? && n <= |ty.fields|
    decreases ty, 0, n
  {
    if n == 0 then []
    else
      var f := ty.fields[n - 1];
      GcLeavesOfFields(ty, n - 1, base) + GcLeaves(f.ty, base + f.offset)
  }

  /** Some field, at any depth of struct nesting, is an array or a vector of GC pointers. */
  predicate HasGcSequence(ty: Type)
  {
    match ty
    case Vector(scalar, _) => IsGcPointer(scalar)
    case Array(element, _) => IsGcPointer(element)
    case Struct(_, fields) => exists i :: 0 <= i < |fields| && HasGcSequence(fields[i].ty)
    case _ => false
  }

  /** The leaf that a dive from a struct reaches for an offset relative to it. */
  function Resolve(ty: Type, offset: nat, base: nat, pointerSize: nat): Leaf
    requires WellLaidOut(ty, pointerSize)
  {
    if ty.Struct? then
      var f := ty.fields[ElementContainingOffset(ty.fields, offset)];
      Resolve(f.ty, offset - f.offset, base + f.offset, pointerSize)
    else
      Leaf(base, ty)
  }

  predicate GcAt(ty: Type, offset: nat, pointerSize: nat)
    requires WellLaidOut(ty, pointerSize)
  {
    IsGcPointer(Resolve(ty, offset, 0, pointerSize).ty)
  }

  /** From an offset on, in pointer-sized steps: the offsets whose leaf is a GC pointer. */
  function Walk(ty: Type, offset: nat, pointerSize: nat): seq<nat>
    requires pointerSize > 0 && WellLaidOut(ty, pointerSize)
    decreases SizeOf(ty, pointerSize) - offset
  {
    if offset >= SizeOf(ty, pointerSize) then []
    else
      (if GcAt(ty, offset, pointerSize) then [offset] else [])
      + Walk(ty, offset + pointerSize, pointerSize)
  }

  predicate Aligned(offset: nat, pointerSize: nat)
    requires pointerSize > 0
  {
    offset % pointerSize == 0
  }

  /** No pointer-aligned offset of the struct lies in padding that directly follows a GC pointer. */
  ghost predicate NoPaddingAfterGcPointer(ty: Type, pointerSize: nat)
    requires pointerSize > 0 && WellLaidOut(ty, pointerSize)
  {
    forall o: nat :: o < SizeOf(ty, pointerSize) && Aligned(o, pointerSize) ==>
      CoveredOrNotGc(Resolve(ty, o, 0, pointerSize), o, pointerSize)
  }

  predicate CoveredOrNotGc(leaf: Leaf, offset: nat, pointerSize: nat)
  {
    offset < leaf.start + SizeOf(leaf.ty, pointerSize) || !IsGcPointer(leaf.ty)
  }

  predicate PointerAligned(offsets: seq<nat>, pointerSize: nat)
    requires pointerSize > 0
  {
    forall i :: 0 <= i < |offsets| ==> Aligned(offsets[i], pointerSize)
  }

  // ---------------------------------------------------------------------------
  // The walk
  // ---------------------------------------------------------------------------

  method GetGcPointers(structTy: Type, pointerSize: nat) returns (pointers: seq<nat>)
    requires structTy.Struct? && pointerSize > 0 && WellLaidOut(structTy, pointerSize)
    requires structTy.size + pointerSize <= 0x1_0000_0000  // the 32-bit loop counter does not wrap
    ensures pointers == Walk(structTy, 0, pointerSize)
  {
    pointers := [];
    var gcOffset := 0;
    while gcOffset < SizeOf(structTy, pointerSize)
      invariant pointers + Walk(structTy, gcOffset, pointerSize) == Walk(structTy, 0, pointerSize)
      decreases SizeOf(structTy, pointerSize) - gcOffset
    {
      pointers := CollectAt(structTy, gcOffset, pointerSize, pointers);
      gcOffset := gcOffset + pointerSize;
    }
  }

  /** One round of the outer loop: keep the offset when the field found there is a GC pointer. */
  method CollectAt(structTy: Type, gcOffset: nat, pointerSize: nat, found: seq<nat>) returns (pointers: seq<nat>)
    requires structTy.Struct? && pointerSize > 0 && WellLaidOut(structTy, pointerSize)
    requires gcOffset < SizeOf(structTy, pointerSize)
    ensures pointers + Walk(structTy, gcOffset + pointerSize, pointerSize) ==
            found + Walk(structTy, gcOffset, pointerSize)
  {
    WalkStep(structTy, gcOffset, pointerSize, found);
    var fieldTy := Dive(structTy, gcOffset, pointerSize);
    if IsGcPointer(fieldTy) {
      pointers := found + [gcOffset];
    } else {
      pointers := found;
    }
  }

  lemma WalkStep(ty: Type, offset: nat, pointerSize: nat, found: seq<nat>)
    requires pointerSize > 0 && WellLaidOut(ty, pointerSize) && offset < SizeOf(ty, pointerSize)
    ensures found + Walk(ty, offset, pointerSize) ==
            (if GcAt(ty, offset, pointerSize) then found + [offset] else found) +
              Walk(ty, offset + pointerSize, pointerSize)
  {
    var rest := Walk(ty, offset + pointerSize, pointerSize);
    assert found + ([offset] + rest) == (found + [offset]) + rest && [] + rest == rest;
  }

  /** The inner loop: dive into nested structs until a field of another type is reached. */
  method Dive(structTy: Type, gcOffset: nat, pointerSize: nat) returns (fieldTy: Type)
    requires structTy.Struct? && WellLaidOut(structTy, pointerSize)
    ensures fieldTy == Resolve(structTy, gcOffset, 0, pointerSize).ty
  {
    var outerStruct, outerOffset := structTy, gcOffset;
    var outerIndex := ElementContainingOffset(structTy.fields, gcOffset);
    fieldTy := structTy.fields[outerIndex].ty;
    ghost var base := 0;
    while fieldTy.Struct?
      invariant outerStruct.Struct? && WellLaidOut(outerStruct, pointerSize)
      invariant outerIndex == ElementContainingOffset(outerStruct.fields, outerOffset)
      invariant fieldTy == outerStruct.fields[outerIndex].ty
      invariant Resolve(structTy, gcOffset, 0, pointerSize) == Resolve(outerStruct, outerOffset, base, pointerSize)
      decreases fieldTy
    {
      var innerBaseOffset := outerStruct.fields[outerIndex].offset;
      var innerOffset := outerOffset - innerBaseOffset;
      var innerIndex := ElementContainingOffset(fieldTy.fields, innerOffset);
      base := base + innerBaseOffset;
      outerStruct, outerOffset, outerIndex := fieldTy, innerOffset, innerIndex;
      fieldTy := fieldTy.fields[innerIndex].ty;
    }
  }

  // ---------------------------------------------------------------------------
  // The walk against the flattening
  // ---------------------------------------------------------------------------

  lemma {:induction false} GcLeavesOfFieldsMembers(ty: Type, n: nat, base: nat, o: nat)
    requires ty.Struct? && n <= |ty.fields|
    ensures o in GcLeavesOfFields(ty, n, base) <==>
            exists i :: 0 <= i < n && o in GcLeaves(ty.fields[i].ty, base + ty.fields[i].offset)
  {
    if n > 0 {
      GcLeavesOfFieldsMembers(ty, n - 1, base, o);
    }
  }

  /** Every leaf lies inside the type that holds it. */
  lemma {:induction false} GcLeavesInside(ty: Type, base: nat, o: nat, pointerSize: nat)
    requires WellLaidOut(ty, pointerSize) && o in GcLeaves(ty, base)
    ensures base <= o && o + pointerSize <= base + SizeOf(ty, pointerSize)
    decreases ty
  {
    if ty.Struct? {
      GcLeavesOfFieldsMembers(ty, |ty.fields|, base, o);
      var i :| 0 <= i < |ty.fields| && o in GcLeaves(ty.fields[i].ty, base + ty.fields[i].offset);
      GcLeavesInside(ty.fields[i].ty, base + ty.fields[i].offset, o, pointerSize);
      assert FieldEnd(ty.fields[i], pointerSize) <= ty.size;
    }
  }

  /** Laid-out fields do not overlap, so an offset inside a field is that field's. */
  lemma FieldAround(ty: Type, i: nat, offset: nat, pointerSize: nat)
    requires ty.Struct? && WellLaidOut(ty, pointerSize) && i < |ty.fields|
    requires ty.fields[i].offset <= offset < FieldEnd(ty.fields[i], pointerSize)
    ensures ElementContainingOffset(ty.fields, offset) == i
  {
  }

  lemma ResolveInField(ty: Type, i: nat, offset: nat, base: nat, pointerSize: nat)
    requires ty.Struct? && WellLaidOut(ty, pointerSize) && i < |ty.fields|
    requires ty.fields[i].offset <= offset < FieldEnd(ty.fields[i], pointerSize)
    ensures WellLaidOut(ty.fields[i].ty, pointerSize)
    ensures Resolve(ty, offset, base, pointerSize) ==
            Resolve(ty.fields[i].ty, offset - ty.fields[i].offset, base + ty.fields[i].offset, pointerSize)
  {
    FieldAround(ty, i, offset, pointerSize);
  }

  /** A leaf of a struct is a leaf of one of its fields, and lies inside it. */
  lemma LeafField(ty: Type, base: nat, o: nat, pointerSize: nat) returns (i: nat)
    requires ty.Struct? && WellLaidOut(ty, pointerSize) && o in GcLeaves(ty, base)
    ensures i < |ty.fields| && WellLaidOut(ty.fields[i].ty, pointerSize)
    ensures o in GcLeaves(ty.fields[i].ty, base + ty.fields[i].offset)
    ensures base + ty.fields[i].offset <= o && o + pointerSize <= base + FieldEnd(ty.fields[i], pointerSize)
  {
    GcLeavesOfFieldsMembers(ty, |ty.fields|, base, o);
    i :| 0 <= i < |ty.fields| && o in GcLeaves(ty.fields[i].ty, base + ty.fields[i].offset);
    GcLeavesInside(ty.fields[i].ty, base + ty.fields[i].offset, o, pointerSize);
  }

  /** Diving for any offset inside a leaf reaches that leaf. */
  lemma {:induction false} LeafResolves(ty: Type, base: nat, o: nat, at: nat, pointerSize: nat)
    requires pointerSize > 0 && WellLaidOut(ty, pointerSize)
    requires o in GcLeaves(ty, base) && o <= at < o + pointerSize
    ensures base <= o && LandsOn(Resolve(ty, at - base, base, pointerSize), o)
    decreases ty
  {
    if ty.Struct? {
      var i := LeafField(ty, base, o, pointerSize);
      ResolveInField(ty, i, at - base, base, pointerSize);
      LeafResolves(ty.fields[i].ty, base + ty.fields[i].offset, o, at, pointerSize);
    }
  }

  predicate LandsOn(leaf: Leaf, o: nat)
  {
    IsGcPointer(leaf.ty) && leaf.start == o
  }

  lemma LeafOfField(ty: Type, base: nat, i: nat, o: nat)
    requires ty.Struct? && i < |ty.fields| && o in GcLeaves(ty.fields[i].ty, base + ty.fields[i].offset)
    ensures o in GcLeaves(ty, base)
  {
    GcLeavesOfFieldsMembers(ty, |ty.fields|, base, o);
  }

  /** A GC pointer that a dive reaches is one of the leaves, at or before the offset. */
  lemma {:induction false} ResolvedIsLeaf(ty: Type, offset: nat, base: nat, pointerSize: nat)
    requires WellLaidOut(ty, pointerSize) && IsGcPointer(Resolve(ty, offset, base, pointerSize).ty)
    ensures Resolve(ty, offset, base, pointerSize).start in GcLeaves(ty, base)
    ensures Resolve(ty, offset, base, pointerSize).start <= base + offset
    decreases ty
  {
    if ty.Struct? {
      var i := ElementContainingOffset(ty.fields, offset);
      var f := ty.fields[i];
      var leaf := Resolve(f.ty, offset - f.offset, base + f.offset, pointerSize);
      assert Resolve(ty, offset, base, pointerSize) == leaf;
      ResolvedIsLeaf(f.ty, offset - f.offset, base + f.offset, pointerSize);
      LeafOfField(ty, base, i, leaf.start);
    }
  }

  predicate Increasing(s: seq<nat>)
  {
    forall i, j :: 0 <= i < j < |s| ==> s[i] < s[j]
  }

  lemma {:induction false} GcLeavesIncreasing(ty: Type, base: nat, pointerSize: nat)
    requires pointerSize > 0 && WellLaidOut(ty, pointerSize)
    ensures Increasing(GcLeaves(ty, base))
    decreases ty, 1, 0
  {
    if ty.Struct? {
      GcLeavesOfFieldsIncreasing(ty, |ty.fields|, base, pointerSize);
    }
  }

  lemma {:induction false} GcLeavesOfFieldsIncreasing(ty: Type, n: nat, base: nat, pointerSize: nat)
    requires pointerSize > 0 && ty.Struct? && WellLaidOut(ty, pointerSize) && n <= |ty.fields|
    ensures Increasing(GcLeavesOfFields(ty, n, base))
    decreases ty, 0, n
  {
    if n > 0 {
      var f := ty.fields[n - 1];
      var init, last := GcLeavesOfFields(ty, n - 1, base), GcLeaves(f.ty, base + f.offset);
      GcLeavesOfFieldsIncreasing(ty, n - 1, base, pointerSize);
      GcLeavesIncreasing(f.ty, base + f.offset, pointerSize);
      forall i, j | 0 <= i < |init| && 0 <= j < |last| ensures init[i] < last[j] {
        LeavesOfEarlierFieldsFirst(ty, n - 1, base, init[i], last[j], pointerSize);
      }
    }
  }

  lemma LeavesOfEarlierFieldsFirst(ty: Type, n: nat, base: nat, o: nat, p: nat, pointerSize: nat)
    requires pointerSize > 0 && ty.Struct? && WellLaidOut(ty, pointerSize) && n < |ty.fields|
    requires o in GcLeavesOfFields(ty, n, base) && p in GcLeaves(ty.fields[n].ty, base + ty.fields[n].offset)
    ensures o < p
  {
    GcLeavesOfFieldsMembers(ty, n, base, o);
    var i :| 0 <= i < n && o in GcLeaves(ty.fields[i].ty, base + ty.fields[i].offset);
    GcLeavesInside(ty.fields[i].ty, base + ty.fields[i].offset, o, pointerSize);
    GcLeavesInside(ty.fields[n].ty, base + ty.fields[n].offset, p, pointerSize);
    assert FieldEnd(ty.fields[i], pointerSize) <= ty.fields[n].offset;
  }

  /** Consecutive multiples of the pointer size are a pointer size apart. */
  lemma AlignedStep(o: nat, p: nat, pointerSize: nat)
    requires pointerSize > 0 && Aligned(o, pointerSize)
    ensures Aligned(o + pointerSize, pointerSize)
    ensures o < p && Aligned(p, pointerSize) ==> o + pointerSize <= p
  {
    Multiples.AddMultiple(o, pointerSize);
    if o < p && Aligned(p, pointerSize) {
      Multiples.MultiplesApart(o, p, pointerSize);
    }
  }

  lemma {:induction false} WalkMember(ty: Type, from: nat, pointerSize: nat, o: nat)
    requires pointerSize > 0 && WellLaidOut(ty, pointerSize) && Aligned(from, pointerSize)
    ensures o in Walk(ty, from, pointerSize) <==>
              && from <= o < SizeOf(ty, pointerSize) && Aligned(o, pointerSize)
              && GcAt(ty, o, pointerSize)
    decreases SizeOf(ty, pointerSize) - from
  {
    if from < SizeOf(ty, pointerSize) {
      AlignedStep(from, o, pointerSize);
      WalkMember(ty, from + pointerSize, pointerSize, o);
    }
  }

  lemma {:induction false} WalkIncreasing(ty: Type, from: nat, pointerSize: nat)
    requires pointerSize > 0 && WellLaidOut(ty, pointerSize) && Aligned(from, pointerSize)
    ensures Increasing(Walk(ty, from, pointerSize))
    decreases SizeOf(ty, pointerSize) - from
  {
    if from < SizeOf(ty, pointerSize) {
      AlignedStep(from, from, pointerSize);
      WalkIncreasing(ty, from + pointerSize, pointerSize);
      var rest := Walk(ty, from + pointerSize, pointerSize);
      forall i | 0 <= i < |rest| ensures from < rest[i] {
        WalkMember(ty, from + pointerSize, pointerSize, rest[i]);
      }
    }
  }

  /** Two increasing sequences with the same members are equal. */
  lemma {:induction false} IncreasingExtensional(s: seq<nat>, t: seq<nat>)
    requires Increasing(s) && Increasing(t)
    requires forall o :: o in s <==> o in t
    ensures s == t
  {
    assert s != [] ==> s[0] in t;
    assert t != [] ==> t[0] in s;
    if s != [] && t != [] {
      var m, n := |s| - 1, |t| - 1;
      assert s[m] in t && t[n] in s;
      assert s[m] == t[n];
      forall o ensures o in s[..m] <==> o in t[..n] {
        if o in s[..m] { assert o in t && o != t[n]; }
        if o in t[..n] { assert o in s && o != s[m]; }
      }
      IncreasingExtensional(s[..m], t[..n]);
      assert s == s[..m] + [s[m]] && t == t[..n] + [t[n]];
    }
  }

  /** With aligned GC pointers every leaf is found, padding or not. */
  lemma LeavesAreFound(ty: Type, pointerSize: nat, o: nat)
    requires ty.Struct? && pointerSize > 0 && WellLaidOut(ty, pointerSize)
    requires PointerAligned(GcLeaves(ty, 0), pointerSize) && o in GcLeaves(ty, 0)
    ensures o in Walk(ty, 0, pointerSize)
  {
    LeafResolves(ty, 0, o, o, pointerSize);
    GcLeavesInside(ty, 0, o, pointerSize);
    WalkMember(ty, 0, pointerSize, o);
  }

  lemma FoundIsLeafIffCovered(ty: Type, o: nat, pointerSize: nat)
    requires ty.Struct? && pointerSize > 0 && WellLaidOut(ty, pointerSize)
    requires PointerAligned(GcLeaves(ty, 0), pointerSize) && Aligned(o, pointerSize)
    requires GcAt(ty, o, pointerSize)
    ensures CoveredOrNotGc(Resolve(ty, o, 0, pointerSize), o, pointerSize) <==> o in GcLeaves(ty, 0)
  {
    var s := Resolve(ty, o, 0, pointerSize).start;
    ResolvedIsLeaf(ty, o, 0, pointerSize);
    AlignedStep(s, o, pointerSize);
    if o in GcLeaves(ty, 0) {
      LeafResolves(ty, 0, o, o, pointerSize);
    }
  }

  /** The walk returns exactly the GC-pointer leaves, in increasing order, if and only if they
      are pointer-aligned and no pointer-aligned offset lies in padding directly after one. */
  lemma WalkFindsLeavesExactly(ty: Type, pointerSize: nat)
    requires ty.Struct? && pointerSize > 0 && WellLaidOut(ty, pointerSize)
    ensures Increasing(Walk(ty, 0, pointerSize)) && Increasing(GcLeaves(ty, 0))
    ensures Walk(ty, 0, pointerSize) == GcLeaves(ty, 0) <==>
            PointerAligned(GcLeaves(ty, 0), pointerSize) && NoPaddingAfterGcPointer(ty, pointerSize)
  {
    var walk, leaves := Walk(ty, 0, pointerSize), GcLeaves(ty, 0);
    WalkIncreasing(ty, 0, pointerSize);
    GcLeavesIncreasing(ty, 0, pointerSize);
    forall o: nat {
      WalkMember(ty, 0, pointerSize, o);
    }
    if PointerAligned(leaves, pointerSize) {
      forall o: nat | Aligned(o, pointerSize) && GcAt(ty, o, pointerSize)
        ensures CoveredOrNotGc(Resolve(ty, o, 0, pointerSize), o, pointerSize) <==> o in leaves
      {
        FoundIsLeafIffCovered(ty, o, pointerSize);
      }
      if NoPaddingAfterGcPointer(ty, pointerSize) {
        forall o | o in leaves ensures o in walk {
          LeavesAreFound(ty, pointerSize, o);
        }
        IncreasingExtensional(walk, leaves);
      }
    }
  }

  /** Sixteen-byte alignment leaves eight bytes of padding after the pointer, which the walk
      reports as a second GC pointer. */
  lemma PaddingIsReportedAsPointer(ty: Type, pointerSize: nat)
    requires ty.Struct? && ty.size == 32 && pointerSize == 8
    requires |ty.fields| == 2 && ty.fields[0] == Field(0, Pointer(1)) && ty.fields[1] == Field(16, Primitive(16))
    ensures WellLaidOut(ty, pointerSize) && GcLeaves(ty, 0) == [0] && 8 in Walk(ty, 0, pointerSize)
  {
    var f, g := ty.fields[0], ty.fields[1];
    assert WellLaidOut(f.ty, pointerSize) && WellLaidOut(g.ty, pointerSize);
    assert FieldEnd(f, pointerSize) == 8 && FieldEnd(g, pointerSize) == 32;
    assert GcLeaves(f.ty, 0) == [0] && GcLeaves(g.ty, 16) == [] && GcLeavesOfFields(ty, 0, 0) == [];
    assert GcLeavesOfFields(ty, 2, 0) == GcLeavesOfFields(ty, 1, 0) + [] == [0];
    assert ElementContainingOffset(ty.fields, 8) == 0;
    assert Resolve(f.ty, 8, 0, pointerSize) == Leaf(0, f.ty);
    WalkMember(ty, 0, pointerSize, 8);
  }

  // ---------------------------------------------------------------------------
  // The aggregate test against the walk
  // ---------------------------------------------------------------------------

  lemma {:induction false} GcTypeMeaning(ty: Type, base: nat)
    ensures IsGcType(ty) <==> GcLeaves(ty, base) != [] || HasGcSequence(ty)
    decreases ty
  {
    if ty.Struct? {
      forall i | 0 <= i < |ty.fields|
        ensures IsGcType(ty.fields[i].ty) <==>
                GcLeaves(ty.fields[i].ty, base + ty.fields[i].offset) != [] || HasGcSequence(ty.fields[i].ty)
      {
        GcTypeMeaning(ty.fields[i].ty, base + ty.fields[i].offset);
      }
      if GcLeaves(ty, base) != [] {
        GcLeavesOfFieldsMembers(ty, |ty.fields|, base, GcLeaves(ty, base)[0]);
        var i :| 0 <= i < |ty.fields| && GcLeaves(ty, base)[0] in GcLeaves(ty.fields[i].ty, base + ty.fields[i].offset);
        assert IsGcType(ty.fields[i].ty);
      }
      if i :| 0 <= i < |ty.fields| && GcLeaves(ty.fields[i].ty, base + ty.fields[i].offset) != [] {
        GcLeavesOfFieldsMembers(ty, |ty.fields|, base, GcLeaves(ty.fields[i].ty, base + ty.fields[i].offset)[0]);
      }
    }
  }

  /** Every leaf, aligned or not, is hit by one of the walk's steps. */
  lemma WalkHasPointers(ty: Type, pointerSize: nat)
    requires ty.Struct? && pointerSize > 0 && WellLaidOut(ty, pointerSize)
    ensures Walk(ty, 0, pointerSize) != [] <==> GcLeaves(ty, 0) != []
  {
    var walk := Walk(ty, 0, pointerSize);
    if GcLeaves(ty, 0) != [] {
      var o := GcLeaves(ty, 0)[0];
      var at := Multiples.MultipleFrom(o, pointerSize);
      LeafResolves(ty, 0, o, at, pointerSize);
      GcLeavesInside(ty, 0, o, pointerSize);
      WalkMember(ty, 0, pointerSize, at);
    }
    if walk != [] {
      WalkMember(ty, 0, pointerSize, walk[0]);
      ResolvedIsLeaf(ty, walk[0], 0, pointerSize);
    }
  }

  /** A struct is a GC aggregate exactly when the walk finds a pointer or the struct holds an
      array or vector of GC pointers, which the walk does not look into. Padding and alignment play no part. */
  lemma AggregateHasPointers(ty: Type, pointerSize: nat)
    requires ty.Struct? && pointerSize > 0 && WellLaidOut(ty, pointerSize)
    ensures IsGcAggregate(ty) <==> Walk(ty, 0, pointerSize) != [] || HasGcSequence(ty)
  {
    GcTypeMeaning(ty, 0);
    WalkHasPointers(ty, pointerSize);
  }

  /** A struct whose only GC pointers sit in an array is an aggregate with no pointers. */
  lemma ArrayOfPointersIsMissed(ty: Type, pointerSize: nat)
    requires ty == Struct(16, [Field(0, Array(Pointer(1), 16))]) && pointerSize == 8
    ensures WellLaidOut(ty, pointerSize) && IsGcAggregate(ty) && Walk(ty, 0, pointerSize) == []
  {
    assert WellLaidOut(ty, pointerSize);
    assert IsGcType(ty.fields[0].ty);
    assert GcLeavesOfFields(ty, 1, 0) == [];
    WalkHasPointers(ty, pointerSize);
  }

  /** Only pointers in address space 1 are managed. */
  predicate NothingManaged(ty: Type)
  {
    match ty
    case Pointer(space) => space != 1
    case Vector(scalar, _) => scalar != Pointer(1)
    case Array(element, _) => element != Pointer(1)
    case Struct(_, fields) => forall i :: 0 <= i < |fields| ==> NothingManaged(fields[i].ty)
    case Primitive(_) => true
  }

  /** A type without managed pointers, in itself or in elements of arrays and vectors, is no GC type, and the walk
      finds nothing in it; every other type is one. */
  lemma {:induction false} GcTypeIffManaged(ty: Type)
    ensures IsGcType(ty) <==> !NothingManaged(ty)
    decreases ty
  {
    if ty.Struct? {
      forall i | 0 <= i < |ty.fields| ensures IsGcType(ty.fields[i].ty) <==> !NothingManaged(ty.fields[i].ty) {
        GcTypeIffManaged(ty.fields[i].ty);
      }
    }
  }

  lemma NothingManagedNothingFound(ty: Type, pointerSize: nat)
    requires ty.Struct? && pointerSize > 0 && WellLaidOut(ty, pointerSize) && NothingManaged(ty)
    ensures !IsGcAggregate(ty) && Walk(ty, 0, pointerSize) == []
  {
    GcTypeIffManaged(ty);
    AggregateHasPointers(ty, pointerSize);
  }
}
