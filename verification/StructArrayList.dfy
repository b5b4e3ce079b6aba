/** The chunked array list: chunks grow geometrically up to a limit, and a pointer into the list
    stays good however much is appended. */
module StructArrayList {
  import Multiples

  const MAX_SIZE_T := 0xFFFF_FFFF_FFFF_FFFF
  const TWO_TO_THE_64 := MAX_SIZE_T + 1

  /** The capacity asked for after a chunk of some capacity: geometric growth in 64-bit arithmetic. */
  function Geometric(factor: nat): nat -> nat
  {
    (capacity: nat) => capacity * factor % TWO_TO_THE_64
  }

  /** The initial capacity, the growth rule and the limit on a chunk's capacity. */
  datatype Layout = Layout(initial: nat, grow: nat -> nat, maxCapacity: nat) {

    predicate Valid() {
      0 < initial && 0 < maxCapacity
    }

    function Limited(wanted: nat): nat {
      if wanted > maxCapacity then maxCapacity else wanted
    }

    /** The capacity chosen when chunk i is created. */
    function Created(i: nat): nat {
      Limited(if i == 0 then initial else grow(Created(i - 1)))
    }

    /** The capacity an iterator works out for chunk i, without the limit. */
    function Iterated(i: nat): nat {
      if i == 0 then initial else grow(Iterated(i - 1))
    }

    /** Growing the capacity of one of the first n chunks does not wrap around to nothing. */
    ghost predicate Grows(n: nat) {
      forall i :: 0 <= i < n ==> grow(Created(i)) > 0
    }

    /** No chunk before the n-th has hit the limit. */
    ghost predicate Unclamped(n: nat) {
      forall i :: 0 <= i < n ==> Iterated(i) <= maxCapacity
    }
  }

  /** The iterator's capacities are the created ones exactly as long as no chunk hit the limit. */
  lemma {:induction false} CapacitiesAgree(l: Layout, n: nat)
    ensures (forall i :: 0 <= i < n ==> l.Iterated(i) == l.Created(i)) <==> l.Unclamped(n)
  {
    if n > 0 {
      var k := n - 1;
      CapacitiesAgree(l, k);
      assert l.Unclamped(k) && k > 0 ==> l.Iterated(k - 1) == l.Created(k - 1);
      assert l.Unclamped(k) ==> l.Created(k) == l.Limited(l.Iterated(k));
    }
  }

  /** The limit for elements of a size behind a header of a size. */
  function MaxCapacity(elementSize: nat, baseSize: nat): nat
    requires 0 < elementSize && baseSize <= MAX_SIZE_T
  {
    (MAX_SIZE_T - baseSize) / elementSize
  }

  /** That is the largest capacity whose bytes can be counted in 64 bits. */
  lemma MaxCapacityIsLargest(elementSize: nat, baseSize: nat, capacity: nat)
    requires 0 < elementSize && baseSize <= MAX_SIZE_T
    ensures baseSize + capacity * elementSize <= MAX_SIZE_T <==> capacity <= MaxCapacity(elementSize, baseSize)
  {
    var room := MAX_SIZE_T - baseSize;
    Multiples.DivMod(room, elementSize);
    if capacity <= room / elementSize {
      BytesWithin(capacity, elementSize, room);
    } else {
      Multiples.NextMultiple(room / elementSize, capacity, elementSize);
    }
  }

  /** A chunk gets the largest capacity within the limit and what growing asks for. */
  lemma CreatedIsLargest(l: Layout, i: nat, capacity: nat)
    ensures capacity <= l.Created(i) <==>
            capacity <= l.maxCapacity && capacity <= if i == 0 then l.initial else l.grow(l.Created(i - 1))
  {
  }

  /** With that limit a chunk's size in bytes never overflows, and growing does not wrap when the
      growth factor is at most the element size. */
  lemma ChunkBytesFit(l: Layout, factor: nat, elementSize: nat, baseSize: nat, i: nat)
    requires 0 < elementSize && baseSize <= MAX_SIZE_T && l.maxCapacity == MaxCapacity(elementSize, baseSize)
    ensures baseSize + l.Created(i) * elementSize <= MAX_SIZE_T
    ensures factor <= elementSize ==> Geometric(factor)(l.Created(i)) == l.Created(i) * factor
  {
    BytesWithin(l.Created(i), elementSize, MAX_SIZE_T - baseSize);
    GrowthWithin(l.Created(i), elementSize, factor);
  }

  lemma GrowthWithin(capacity: nat, elementSize: nat, factor: nat)
    requires capacity * elementSize <= MAX_SIZE_T
    ensures factor <= elementSize ==> Geometric(factor)(capacity) == capacity * factor
  {
    if factor <= elementSize {
      Multiples.MulMonotone(factor, elementSize, capacity);
    }
  }

  lemma BytesWithin(capacity: nat, elementSize: nat, room: nat)
    requires 0 < elementSize && capacity <= room / elementSize
    ensures capacity * elementSize <= room
  {
    Multiples.DivMod(room, elementSize);
    Multiples.MulMonotone(capacity, room / elementSize, elementSize);
  }

  class Chunk<T(0)> {
    const items: array<T>
    var next: Chunk?<T>
    ghost const position: nat

    constructor (capacity: nat, ghost position: nat)
      ensures items.Length == capacity && fresh(items) && next == null && this.position == position
    {
      items := new T[capacity];
      next := null;
      this.position := position;
    }
  }

  /** A pointer to an element. */
  datatype Pointer<!T(0)> = Pointer(chunk: Chunk<T>, index: nat)

  ghost function PointersInto<T(0)>(chunk: Chunk<T>, count: nat): (ps: seq<Pointer<T>>)
    ensures |ps| == count && forall i :: 0 <= i < count ==> ps[i] == Pointer(chunk, i)
  {
    seq(count, i requires 0 <= i < count => Pointer(chunk, i))
  }

  /** The elements' addresses in the first k chunks, in order: full chunks, and the filled part of
      the last one. */
  ghost function PointersUpTo<T(0)>(chunks: seq<Chunk<T>>, lastCount: nat, k: nat): seq<Pointer<T>>
    requires k <= |chunks|
  {
    if k == 0 then []
    else PointersUpTo(chunks, lastCount, k - 1) + PointersInto(chunks[k - 1], Filled(chunks, lastCount, k - 1))
  }

  ghost function Filled<T(0)>(chunks: seq<Chunk<T>>, lastCount: nat, k: nat): nat
    requires k < |chunks|
  {
    if k + 1 == |chunks| then lastCount else chunks[k].items.Length
  }

  lemma {:induction false} PointersUpToGrows<T(0)>(chunks: seq<Chunk<T>>, lastCount: nat, j: nat, k: nat)
    requires j <= k <= |chunks|
    ensures PointersUpTo(chunks, lastCount, j) <= PointersUpTo(chunks, lastCount, k)
  {
    if j < k {
      PointersUpToGrows(chunks, lastCount, j, k - 1);
    }
  }

  /** Where the addresses into chunk k stand among all of them. */
  lemma PointersOfChunk<T(0)>(chunks: seq<Chunk<T>>, lastCount: nat, k: nat)
    requires k < |chunks|
    ensures var all, count := PointersUpTo(chunks, lastCount, |chunks|), Filled(chunks, lastCount, k);
            var before := |PointersUpTo(chunks, lastCount, k)|;
            && |PointersUpTo(chunks, lastCount, k + 1)| == before + count <= |all|
            && forall i :: before <= i < before + count ==> all[i] == Pointer(chunks[k], i - before)
  {
    PointersUpToGrows(chunks, lastCount, k + 1, |chunks|);
  }

  /** Appending a chunk to a list whose last chunk is full leaves all addresses as they are. */
  lemma {:induction false} PointersOfLonger<T(0)>(chunks: seq<Chunk<T>>, chunk: Chunk<T>, lastCount: nat, k: nat)
    requires k <= |chunks| && (chunks != [] ==> lastCount == chunks[|chunks| - 1].items.Length)
    ensures PointersUpTo(chunks + [chunk], 0, k) == PointersUpTo(chunks, lastCount, k)
  {
    if k > 0 {
      PointersOfLonger(chunks, chunk, lastCount, k - 1);
    }
  }

  /** Filling one more place of the last chunk adds its address at the end. */
  lemma {:induction false} PointersOfFuller<T(0)>(chunks: seq<Chunk<T>>, lastCount: nat, k: nat)
    requires k <= |chunks|
    ensures PointersUpTo(chunks, lastCount + 1, k) ==
            PointersUpTo(chunks, lastCount, k) + if 0 < k == |chunks| then [Pointer(chunks[k - 1], lastCount)] else []
  {
    if k > 0 {
      PointersOfFuller(chunks, lastCount, k - 1);
      var chunk := chunks[k - 1];
      if k == |chunks| {
        assert PointersInto(chunk, lastCount + 1) == PointersInto(chunk, lastCount) + [Pointer(chunk, lastCount)];
      }
    }
  }

  /** Address i lies in one of the chunks, and its index there is what it is past the chunks before. */
  lemma {:induction false} PointerAt<T(0)>(chunks: seq<Chunk<T>>, lastCount: nat, k: nat, i: nat) returns (c: nat)
    requires k <= |chunks| && i < |PointersUpTo(chunks, lastCount, k)|
    ensures c < k
    ensures var p := PointersUpTo(chunks, lastCount, k)[i];
            && p.chunk == chunks[c] && p.index < Filled(chunks, lastCount, c)
            && i == |PointersUpTo(chunks, lastCount, c)| + p.index
  {
    if i < |PointersUpTo(chunks, lastCount, k - 1)| {
      c := PointerAt(chunks, lastCount, k - 1, i);
    } else {
      c := k - 1;
    }
  }

  lemma {:induction false} ChunksHoldElements<T(0)>(chunks: seq<Chunk<T>>, lastCount: nat, k: nat)
    requires k <= |chunks| && forall i :: 0 <= i < |chunks| ==> Filled(chunks, lastCount, i) > 0
    ensures |PointersUpTo(chunks, lastCount, k)| >= k
  {
    if k > 0 {
      ChunksHoldElements(chunks, lastCount, k - 1);
    }
  }

  /** One address names other storage than all the others. */
  predicate AllApart<T(0)>(ps: seq<Pointer<T>>, q: Pointer<T>)
  {
    forall i :: 0 <= i < |ps| ==> InBounds(ps[i]) && Distinct(ps[i], q)
  }

  lemma LastPlaceApart<T(0)>(chunks: seq<Chunk<T>>, lastCount: nat, before: seq<Pointer<T>>, p: Pointer<T>)
    requires Separate(chunks) && (chunks != [] ==> lastCount <= chunks[|chunks| - 1].items.Length)
    requires PointersUpTo(chunks, lastCount, |chunks|) == before + [p]
    ensures AllApart(before, p) && InBounds(p)
  {
    PlacesDiffer(chunks, lastCount, |before|, |before|);
    forall i | 0 <= i < |before| ensures InBounds(before[i]) && Distinct(before[i], p) {
      PlacesDiffer(chunks, lastCount, i, |before|);
    }
  }

  /** The chunks have the capacities chosen at creation, and are all different. */
  ghost predicate Sized<T(0)>(layout: Layout, chunks: seq<Chunk<T>>)
  {
    forall i :: 0 <= i < |chunks| ==> chunks[i].position == i && chunks[i].items.Length == layout.Created(i)
  }

  ghost predicate NoneEmpty<T(0)>(chunks: seq<Chunk<T>>)
  {
    forall i :: 0 <= i < |chunks| ==> chunks[i].items.Length > 0
  }

  /** No two chunks share their storage. */
  ghost predicate Separate<T(0)>(chunks: seq<Chunk<T>>)
  {
    forall i, j :: 0 <= i < j < |chunks| ==> chunks[i].items != chunks[j].items
  }

  lemma SizedSnoc<T(0)>(layout: Layout, chunks: seq<Chunk<T>>, chunk: Chunk<T>)
    requires Sized(layout, chunks) && chunk.position == |chunks| && chunk.items.Length == layout.Created(|chunks|) > 0
    requires NoneEmpty(chunks) && Separate(chunks) && forall i :: 0 <= i < |chunks| ==> chunks[i].items != chunk.items
    ensures Sized(layout, chunks + [chunk]) && NoneEmpty(chunks + [chunk]) && Separate(chunks + [chunk])
  {
  }

  predicate InBounds<T(0)>(p: Pointer<T>)
  {
    p.index < p.chunk.items.Length
  }

  /** Two addresses name different storage. */
  predicate Distinct<T(0)>(p: Pointer<T>, q: Pointer<T>)
  {
    p.chunk.items != q.chunk.items || p.index != q.index
  }

  /** Every address is good, and no two name the same storage. */
  lemma PlacesDiffer<T(0)>(chunks: seq<Chunk<T>>, lastCount: nat, i: nat, j: nat)
    requires Separate(chunks) && (chunks != [] ==> lastCount <= chunks[|chunks| - 1].items.Length)
    requires i < |PointersUpTo(chunks, lastCount, |chunks|)| && j < |PointersUpTo(chunks, lastCount, |chunks|)|
    ensures var all := PointersUpTo(chunks, lastCount, |chunks|);
            && InBounds(all[i]) && all[i].chunk in chunks
            && (i != j ==> Distinct(all[i], all[j]))
  {
    var b := PointerAt(chunks, lastCount, |chunks|, i);
    var c := PointerAt(chunks, lastCount, |chunks|, j);
    assert b < c ==> chunks[b].items != chunks[c].items;
    assert c < b ==> chunks[c].items != chunks[b].items;
  }

  ghost predicate ValueIs<T(0)>(p: Pointer<T>, value: T)
    reads p.chunk.items
  {
    InBounds(p) && p.chunk.items[p.index] == value
  }

  /** Writing one place leaves the values in all other places alone. */
  method WriteApart<T(0)>(ghost places: seq<Pointer<T>>, ghost values: seq<T>, p: Pointer<T>, value: T)
    requires |places| == |values| && AllApart(places, p) && InBounds(p)
    requires forall i :: 0 <= i < |places| ==> ValueIs(places[i], values[i])
    modifies p.chunk.items
    ensures ValueIs(p, value) && forall i :: 0 <= i < |places| ==> ValueIs(places[i], values[i])
  {
    p.chunk.items[p.index] := value;
    forall i | 0 <= i < |places| ensures ValueIs(places[i], values[i]) {
      assert Distinct(places[i], p);
    }
  }

  ghost predicate Chained<T(0)>(chunks: seq<Chunk<T>>)
    reads chunks
  {
    && (forall i {:trigger chunks[i].next} :: 0 <= i < |chunks| - 1 ==> chunks[i].next == chunks[i + 1])
    && (chunks != [] ==> chunks[|chunks| - 1].next == null)
  }

  class StructArrayList<T(0)> {
    const layout: Layout
    var chunkListHead: Chunk?<T>
    var chunkListTail: Chunk?<T>
    var nItemsInLastChunk: nat
    var nTotalItems: nat
    var nLastChunkCapacity: nat

    ghost var chunks: seq<Chunk<T>>

    ghost predicate Linked()
      reads this, chunks
    {
      && layout.Valid() && Sized(layout, chunks) && NoneEmpty(chunks) && Separate(chunks) && Chained(chunks)
      && chunkListHead == (if chunks == [] then null else chunks[0])
      && chunkListTail == (if chunks == [] then null else chunks[|chunks| - 1])
      && (chunks != [] ==> nLastChunkCapacity == chunks[|chunks| - 1].items.Length)
    }

    ghost predicate Valid()
      reads this, chunks
    {
      && Linked()
      && (chunks != [] ==> 0 < nItemsInLastChunk <= nLastChunkCapacity)
      && nTotalItems == |Pointers()|
    }

    /** The elements' addresses, in order. */
    ghost function Pointers(): seq<Pointer<T>>
      reads this
    {
      PointersUpTo(chunks, nItemsInLastChunk, |chunks|)
    }

    /** A reader of the list works while only the last chunk may have hit the limit. */
    ghost predicate Readable()
      reads this
    {
      chunks != [] ==> layout.Unclamped(|chunks| - 1)
    }

    constructor (initialChunkLength: nat, growthFactor: nat, maxChunkCapacity: nat)
      requires 0 < initialChunkLength && 0 < growthFactor && 0 < maxChunkCapacity
      ensures Valid() && Pointers() == []
      ensures layout == Layout(initialChunkLength, Geometric(growthFactor), maxChunkCapacity)
    {
      layout := Layout(initialChunkLength, Geometric(growthFactor), maxChunkCapacity);
      chunkListHead, chunkListTail := null, null;
      nItemsInLastChunk, nTotalItems, nLastChunkCapacity := 0, 0, 0;
      chunks := [];
    }

    /** The initial length, or the last capacity grown, within the limit. */
    method ChunkCapacity() returns (nChunkCapacity: nat)
      requires Linked() && (chunks != [] ==> layout.grow(nLastChunkCapacity) > 0)
      ensures 0 < nChunkCapacity == layout.Created(|chunks|)
    {
      if chunkListHead == null {
        nChunkCapacity := layout.initial;
      } else {
        nChunkCapacity := layout.grow(nLastChunkCapacity);
      }
      if nChunkCapacity > layout.maxCapacity {
        nChunkCapacity := layout.maxCapacity;
      }
    }

    method CreateNewChunk()
      requires Linked() && (chunks != [] ==> layout.grow(nLastChunkCapacity) > 0)
      modifies this, chunkListTail
      ensures Linked() && chunks == old(chunks) + [chunkListTail] && fresh(chunkListTail) && fresh(chunkListTail.items)
      ensures nItemsInLastChunk == 0 < nLastChunkCapacity && nTotalItems == old(nTotalItems)
    {
      var nChunkCapacity := ChunkCapacity();
      var newChunk := new Chunk<T>(nChunkCapacity, |chunks|);
      SizedSnoc(layout, chunks, newChunk);
      Link(newChunk);
      assert chunks[|chunks| - 1] == newChunk;
      nItemsInLastChunk := 0;
      nLastChunkCapacity := nChunkCapacity;
    }

    method Link(newChunk: Chunk<T>)
      requires Linked() && newChunk.next == null && newChunk.position == |chunks|
      modifies this`chunkListHead, this`chunkListTail, this`chunks, chunkListTail
      ensures chunks == old(chunks) + [newChunk] && Chained(chunks)
      ensures chunkListHead == chunks[0] && chunkListTail == newChunk
    {
      assert forall i :: 0 <= i < |chunks| - 1 ==> chunks[i] != chunkListTail;
      if chunkListTail != null {
        chunkListTail.next := newChunk;
      } else {
        chunkListHead := newChunk;
      }
      chunkListTail := newChunk;
      chunks := chunks + [newChunk];
    }

    /** A new chunk when there is none or the last one is full; no address changes. */
    method MakeRoom()
      requires Valid() && (chunks != [] ==> layout.grow(nLastChunkCapacity) > 0)
      modifies this, chunkListTail
      ensures Linked() && chunks != [] && nItemsInLastChunk < nLastChunkCapacity
      ensures Pointers() == old(Pointers()) && nTotalItems == old(nTotalItems)
      ensures chunkListTail == old(chunkListTail) || (fresh(chunkListTail) && fresh(chunkListTail.items))
      ensures old(chunks) <= chunks && forall i :: |old(chunks)| <= i < |chunks| ==> fresh(chunks[i].items)
    {
      if chunkListTail == null || nItemsInLastChunk == nLastChunkCapacity {
        ghost var before, count := chunks, nItemsInLastChunk;
        CreateNewChunk();
        PointersOfLonger(before, chunkListTail, count, |before|);
      }
    }

    /** A new element at the end, in storage of its own; every earlier element keeps its address and
        its value, also when the new one is written. */
    method AppendThrowing() returns (p: Pointer<T>)
      requires Valid() && (chunks != [] ==> layout.grow(nLastChunkCapacity) > 0)
      modifies this, chunkListTail
      ensures Valid()
      ensures Pointers() == old(Pointers()) + [p] && InBounds(p)
      ensures AllApart(old(Pointers()), p)
      ensures p.chunk == chunkListTail
      ensures chunkListTail == old(chunkListTail) || (fresh(p.chunk) && fresh(p.chunk.items))
      ensures old(chunks) <= chunks && forall i :: |old(chunks)| <= i < |chunks| ==> fresh(chunks[i].items)
    {
      MakeRoom();
      p := TakePlace();
      LastPlaceApart(chunks, nItemsInLastChunk, old(Pointers()), p);
    }

    lemma PlacesInChunks()
      requires Valid()
      ensures forall i :: 0 <= i < |Pointers()| ==> Pointers()[i].chunk in chunks && InBounds(Pointers()[i])
    {
      forall i | 0 <= i < |Pointers()| ensures Pointers()[i].chunk in chunks && InBounds(Pointers()[i]) {
        PlacesDiffer(chunks, nItemsInLastChunk, i, i);
      }
    }

    /** The values at the addresses, in order. */
    ghost predicate Holds(values: seq<T>)
      reads this, set p | p in Pointers() :: p.chunk.items
    {
      && |values| == |Pointers()|
      && forall i :: 0 <= i < |values| ==> ValueIs(Pointers()[i], values[i])
    }

    /** One element appended and written through its address. */
    method Append(value: T, ghost before: seq<T>)
      requires Valid() && Holds(before) && (chunks != [] ==> layout.grow(nLastChunkCapacity) > 0)
      modifies this, chunkListTail, if chunkListTail == null then {} else {chunkListTail.items}
      ensures Valid() && Holds(before + [value]) && old(Pointers()) <= Pointers()
      ensures chunkListTail == old(chunkListTail) || (fresh(chunkListTail) && fresh(chunkListTail.items))
      ensures chunkListTail != null && old(chunks) <= chunks
              && forall i :: |old(chunks)| <= i < |chunks| ==> fresh(chunks[i].items)
    {
      ghost var places := Pointers();
      assert forall i :: 0 <= i < |before| ==> ValueIs(places[i], before[i]);
      assert forall i :: 0 <= i < |places| ==> places[i].chunk in chunks by { PlacesInChunks(); }
      var p := AppendThrowing();
      WriteApart(places, before, p, value);
    }

    method AppendOneOf(values: seq<T>, k: nat, ghost before: seq<T>)
      requires Valid() && k < |values| && Holds(before + values[..k]) && layout.Grows(|before| + |values|)
      modifies this, chunkListTail, if chunkListTail == null then {} else {chunkListTail.items}
      ensures Valid() && Holds(before + values[..k + 1]) && old(Pointers()) <= Pointers()
      ensures chunkListTail == old(chunkListTail) || (fresh(chunkListTail) && fresh(chunkListTail.items))
      ensures chunkListTail != null && old(chunks) <= chunks
              && forall i :: |old(chunks)| <= i < |chunks| ==> fresh(chunks[i].items)
    {
      MayGrow(|before| + |values|);
      Append(values[k], before + values[..k]);
      assert (before + values[..k]) + [values[k]] == before + values[..k + 1];
    }

    /** A run of appends and writes: the list holds all the values in order, and no earlier address changed. */
    method AppendAll(values: seq<T>, ghost before: seq<T>)
      requires Valid() && Holds(before) && layout.Grows(|before| + |values|)
      modifies this, chunkListTail, if chunkListTail == null then {} else {chunkListTail.items}
      ensures Valid() && Holds(before + values) && old(Pointers()) <= Pointers()
              && old(chunks) <= chunks && forall i :: |old(chunks)| <= i < |chunks| ==> fresh(chunks[i].items)
    {
      ghost var places, chunks0 := Pointers(), chunks;
      for k := 0 to |values|
        invariant chunks0 <= chunks && forall i :: |chunks0| <= i < |chunks| ==> fresh(chunks[i].items)
        invariant Valid() && Holds(before + values[..k]) && places <= Pointers()
        invariant chunkListTail == old(chunkListTail) ||
                  (chunkListTail != null && fresh(chunkListTail) && fresh(chunkListTail.items))
      {
        AppendOneOf(values, k, before);
      }
      assert values[..|values|] == values;
    }

    /** A list of n elements has at most n chunks. */
    lemma FewChunks()
      requires Valid()
      ensures |chunks| <= |Pointers()|
    {
      ChunksHoldElements(chunks, nItemsInLastChunk, |chunks|);
    }

    lemma MayGrow(n: nat)
      requires Valid() && |Pointers()| <= n && layout.Grows(n)
      ensures chunks != [] ==> layout.grow(nLastChunkCapacity) > 0
    {
      FewChunks();
    }

    /** So it is readable when none of the first n chunks hits the limit. */
    lemma ReadableWhileUnclamped(n: nat)
      requires Valid() && n == |Pointers()| && layout.Unclamped(n)
      ensures Readable()
    {
      FewChunks();
    }

    method TakePlace() returns (p: Pointer<T>)
      requires Linked() && chunks != [] && nItemsInLastChunk < nLastChunkCapacity && nTotalItems == |Pointers()|
      modifies this`nTotalItems, this`nItemsInLastChunk
      ensures Valid()
      ensures Pointers() == old(Pointers()) + [p] && p.index < p.chunk.items.Length
      ensures p.chunk == chunkListTail == old(chunkListTail)
    {
      PointersOfFuller(chunks, nItemsInLastChunk, |chunks|);
      nTotalItems := nTotalItems + 1;
      nItemsInLastChunk := nItemsInLastChunk + 1;
      p := Pointer(chunkListTail, nItemsInLastChunk - 1);
    }

    method Count() returns (n: nat)
      requires Valid()
      ensures n == |Pointers()|
    {
      n := nTotalItems;
    }

    method GetIndex(index: nat) returns (p: Pointer<T>)
      requires Valid() && index < |Pointers()| && Readable()
      ensures p == Pointers()[index]
      ensures forall values :: Holds(values) ==> ValueIs(p, values[index])
    {
      var iter := new ArrayIterator(this);
      var chunkBaseIndex := 0;
      ghost var k := 0;
      while true
        invariant iter.At(layout, chunks, nItemsInLastChunk, k) && fresh(iter)
        invariant chunkBaseIndex == |PointersUpTo(chunks, nItemsInLastChunk, k)| <= index
        decreases |chunks| - k
      {
        assert k < |chunks|;
        PointersOfChunk(chunks, nItemsInLastChunk, k);
        var chunk, count := iter.GetNext(this, k);
        var nextBaseIndex := chunkBaseIndex + count;
        if nextBaseIndex > index {
          return Pointer(chunk, index - chunkBaseIndex);
        }
        chunkBaseIndex := nextBaseIndex;
        k := k + 1;
      }
    }

    /** Writes all elements, in order, to the start of the destination. */
    method CopyTo(dest: array<T>)
      requires Valid() && Readable() && |Pointers()| <= dest.Length
      requires forall i :: 0 <= i < |chunks| ==> chunks[i].items != dest
      modifies dest
      ensures Copied(dest, |Pointers()|)
      ensures forall values :: Holds(values) ==> dest[..|values|] == values
      ensures forall i :: |Pointers()| <= i < dest.Length ==> dest[i] == old(dest[i])
    {
      var iter := new ArrayIterator(this);
      var written, more := 0, true;
      ghost var k := 0;
      while more
        invariant fresh(iter) && iter.At(layout, chunks, nItemsInLastChunk, k)
        invariant written == |PointersUpTo(chunks, nItemsInLastChunk, k)| <= |Pointers()| && Copied(dest, written)
        invariant forall i :: written <= i < dest.Length ==> dest[i] == old(dest[i])
        invariant !more ==> k == |chunks|
        decreases |chunks| - k, more
      {
        more, written := CopyNext(iter, dest, written, k);
        k := if more then k + 1 else k;
      }
    }

    /** One round: the next chunk, if there is one, goes to the destination. */
    method CopyNext(iter: ArrayIterator<T>, dest: array<T>, written: nat, ghost k: nat) returns (more: bool, total: nat)
      requires Valid() && Readable() && iter.At(layout, chunks, nItemsInLastChunk, k)
      requires |Pointers()| <= dest.Length && written == |PointersUpTo(chunks, nItemsInLastChunk, k)| <= |Pointers()|
      requires Copied(dest, written) && forall i :: 0 <= i < |chunks| ==> chunks[i].items != dest
      modifies iter, dest
      ensures more == (k < |chunks|)
      ensures iter.At(layout, chunks, nItemsInLastChunk, if more then k + 1 else k)
      ensures total == |PointersUpTo(chunks, nItemsInLastChunk, if more then k + 1 else k)| <= |Pointers()|
      ensures written <= total && Copied(dest, total)
      ensures forall i :: total <= i < dest.Length ==> dest[i] == old(dest[i])
    {
      var src, nSrc := iter.GetNext(this, k);
      more, total := src != null, written;
      if more {
        CopyChunk(dest, written, src, nSrc, k);
        total := written + nSrc;
      }
    }

    /** The block copy of one chunk's filled part. */
    method CopyChunk(dest: array<T>, written: nat, src: Chunk<T>, nSrc: nat, ghost k: nat)
      requires Valid() && k < |chunks| && src == chunks[k] && nSrc == Filled(chunks, nItemsInLastChunk, k)
      requires |Pointers()| <= dest.Length && written == |PointersUpTo(chunks, nItemsInLastChunk, k)| <= |Pointers()|
      requires Copied(dest, written) && forall i :: 0 <= i < |chunks| ==> chunks[i].items != dest
      modifies dest
      ensures written + nSrc == |PointersUpTo(chunks, nItemsInLastChunk, k + 1)| <= |Pointers()|
      ensures Copied(dest, written + nSrc)
      ensures forall i :: written + nSrc <= i < dest.Length ==> dest[i] == old(dest[i])
    {
      PointersOfChunk(chunks, nItemsInLastChunk, k);
      ghost var all := Pointers();
      forall j | 0 <= j < nSrc {
        dest[written + j] := src.items[j];
      }
      forall i | 0 <= i < written + nSrc
        ensures all[i].chunk in chunks && all[i].index < all[i].chunk.items.Length
          && dest[i] == all[i].chunk.items[all[i].index]
      {
        if i < written {
          assert dest[i] == old(dest[i]);
        } else {
          assert all[i] == Pointer(src, i - written) && dest[written + (i - written)] == src.items[i - written];
        }
      }
    }

    /** The first elements of the destination are the values at the first addresses. */
    ghost predicate Copied(dest: array<T>, n: nat)
      requires n <= |Pointers()| && n <= dest.Length
      reads this, dest, set i | 0 <= i < |chunks| :: chunks[i].items
    {
      forall i :: 0 <= i < n ==>
        var p := Pointers()[i];
        p.chunk in chunks && p.index < p.chunk.items.Length && dest[i] == p.chunk.items[p.index]
    }
  }

  /** The layout of a list made with a growth factor. */
  function LayoutOf(initial: nat, factor: nat, maxCapacity: nat): Layout
  {
    Layout(initial, Geometric(factor), maxCapacity)
  }

  /** A list filled from empty; it is readable when no chunk but the last can have hit the limit. */
  method FilledList<T(0)>(initial: nat, factor: nat, maxCapacity: nat, values: seq<T>)
    returns (list: StructArrayList<T>)
    requires 0 < initial && 0 < factor && 0 < maxCapacity
    requires LayoutOf(initial, factor, maxCapacity).Grows(|values|) &&
             LayoutOf(initial, factor, maxCapacity).Unclamped(|values|)
    ensures fresh(list) && list.Valid() && list.Holds(values) && list.Readable()
    ensures forall i :: 0 <= i < |list.chunks| ==> fresh(list.chunks[i].items)
  {
    list := new StructArrayList(initial, factor, maxCapacity);
    list.AppendAll(values, []);
    assert [] + values == values;
    list.ReadableWhileUnclamped(|values|);
  }

  /** A whole run, from an empty list: the values appended and written are the values copied out, and
      an index finds the value appended in its place. */
  method RunReadsBack<T(0)>(initial: nat, factor: nat, maxCapacity: nat, values: seq<T>, dest: array<T>, index: nat)
    returns (p: Pointer<T>)
    requires 0 < initial && 0 < factor && 0 < maxCapacity && index < |values| <= dest.Length
    requires LayoutOf(initial, factor, maxCapacity).Grows(|values|) &&
             LayoutOf(initial, factor, maxCapacity).Unclamped(|values|)
    modifies dest
    ensures dest[..|values|] == values && ValueIs(p, values[index])
    ensures forall i :: |values| <= i < dest.Length ==> dest[i] == old(dest[i])
  {
    var list := FilledList(initial, factor, maxCapacity, values);
    p := list.GetIndex(index);
    list.CopyTo(dest);
  }

  class ArrayIterator<T(0)> {
    var currentChunk: Chunk?<T>
    var nItemsInCurrentChunk: nat
    var nCurrentChunkCapacity: nat

    /** The iterator stands at chunk k of a list. */
    ghost predicate At(layout: Layout, chunks: seq<Chunk<T>>, lastCount: nat, k: nat)
      reads this
    {
      && k <= |chunks|
      && (k == |chunks| ==> currentChunk == null)
      && (k < |chunks| ==>
            && currentChunk == chunks[k]
            && nCurrentChunkCapacity == layout.Iterated(k)
            && nItemsInCurrentChunk == if k + 1 == |chunks| then lastCount else nCurrentChunkCapacity)
    }

    constructor (list: StructArrayList<T>)
      requires list.Linked()
      ensures At(list.layout, list.chunks, list.nItemsInLastChunk, 0)
    {
      currentChunk, nCurrentChunkCapacity, nItemsInCurrentChunk := null, 0, 0;
      new;
      assert list.chunks != [] && list.chunks[0] == list.chunkListTail ==> |list.chunks| == 1;
      SetCurrentChunk(list, list.chunkListHead, list.layout.initial);
    }

    method SetCurrentChunk(list: StructArrayList<T>, chunk: Chunk?<T>, nChunkCapacity: nat)
      modifies this
      ensures currentChunk == chunk
      ensures chunk != null ==>
                && nCurrentChunkCapacity == nChunkCapacity
                && nItemsInCurrentChunk ==
                   if chunk == list.chunkListTail then list.nItemsInLastChunk else nChunkCapacity
    {
      currentChunk := chunk;
      if chunk != null {
        if chunk == list.chunkListTail {
          nItemsInCurrentChunk := list.nItemsInLastChunk;
        } else {
          nItemsInCurrentChunk := nChunkCapacity;
        }
        nCurrentChunkCapacity := nChunkCapacity;
      }
    }

    /** The chunk and the count the iterator stands at, and a step to the next chunk. */
    method GetNext(list: StructArrayList<T>, ghost k: nat) returns (chunk: Chunk?<T>, nElements: nat)
      requires list.Linked() && list.Readable() && At(list.layout, list.chunks, list.nItemsInLastChunk, k)
      modifies this
      ensures At(list.layout, list.chunks, list.nItemsInLastChunk, if k < |list.chunks| then k + 1 else k)
      ensures if k < |list.chunks| then
                chunk == list.chunks[k] && nElements == Filled(list.chunks, list.nItemsInLastChunk, k)
              else chunk == null
    {
      chunk, nElements := null, 0;
      if currentChunk != null {
        chunk, nElements := currentChunk, nItemsInCurrentChunk;
        CapacitiesAgree(list.layout, |list.chunks| - 1);
        assert k + 1 < |list.chunks| ==> list.layout.Iterated(k) == list.layout.Created(k);
        assert k + 1 < |list.chunks| ==> list.chunks[k + 1].position == k + 1;
        SetCurrentChunk(list, currentChunk.next, list.layout.grow(nCurrentChunkCapacity));
      }
    }
  }
}
