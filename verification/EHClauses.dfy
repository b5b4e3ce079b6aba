/** Exception clauses: the blocks of code they protect and handle, the rules by which they nest, and
    the sort that puts inner clauses first. */
module EHClauses {

  /** Code from a start offset up to an end offset. */
  datatype Range = Range(start: nat, end: nat)

  predicate Within(x: Range, y: Range)
  {
    y.start <= x.start && x.end <= y.end
  }

  predicate Apart(x: Range, y: Range)
  {
    x.end <= y.start || y.end <= x.start
  }

  predicate StrictlyWithin(x: Range, y: Range)
  {
    Within(x, y) && x != y
  }

  datatype ClauseKind = Catch | FilterAt(offset: nat) | Finally | Fault

  datatype Clause = Clause(tryOffset: nat, tryLength: nat, handlerOffset: nat, handlerLength: nat, kind: ClauseKind) {

    function Try(): Range {
      Range(tryOffset, tryOffset + tryLength)
    }

    function Handler(): Range {
      Range(handlerOffset, handlerOffset + handlerLength)
    }

    /** The filter, which ends where its handler starts, or the handler when there is none. */
    function First(): Range {
      if kind.FilterAt? then Range(kind.offset, handlerOffset) else Handler()
    }

    /** The blocks are not empty, do not overlap and lie in the code. */
    predicate Valid(codeSize: nat) {
      && 0 < tryLength && 0 < handlerLength
      && Within(Try(), Range(0, codeSize)) && Within(Handler(), Range(0, codeSize))
      && Apart(Try(), Handler()) && Apart(Try(), First()) && First().start < First().end
    }

    /** All blocks lie in a range. */
    predicate Inside(r: Range) {
      Within(Try(), r) && Within(Handler(), r) && Within(First(), r)
    }

    /** No block overlaps a range. */
    predicate Clear(r: Range) {
      Apart(Try(), r) && Apart(Handler(), r) && Apart(First(), r)
    }
  }

  // ---------------------------------------------------------------------------
  // The rules of nesting
  // ---------------------------------------------------------------------------

  /** All of x lies in one block of y. */
  predicate Nested(x: Clause, y: Clause)
  {
    x.Inside(y.Try()) || x.Inside(y.Handler()) || x.Inside(y.First())
  }

  predicate Disjoint(x: Clause, y: Clause)
  {
    x.Clear(y.Try()) && x.Clear(y.Handler()) && x.Clear(y.First())
  }

  /** Two handlers of one try block. */
  predicate SameTry(x: Clause, y: Clause)
  {
    && x.Try() == y.Try()
    && Apart(x.Handler(), y.Handler()) && Apart(x.Handler(), y.First())
    && Apart(x.First(), y.Handler()) && Apart(x.First(), y.First())
  }

  /** Clauses x and y, in this order, are listed with inner ones first. */
  predicate MayPrecede(x: Clause, y: Clause)
  {
    Nested(x, y) || Disjoint(x, y) || SameTry(x, y)
  }

  /** A clause that protects or handles any of another one protects or handles all of it. */
  predicate Compatible(x: Clause, y: Clause)
  {
    MayPrecede(x, y) || MayPrecede(y, x)
  }

  ghost predicate Rules(cs: seq<Clause>, codeSize: nat)
  {
    && (forall i :: 0 <= i < |cs| ==> cs[i].Valid(codeSize))
    && (forall i, j :: 0 <= i < j < |cs| ==> Compatible(cs[i], cs[j]))
  }

  /** No clause of the first n is nested in an earlier one. */
  ghost predicate InnerFirst(cs: seq<Clause>, n: nat)
    requires n <= |cs|
  {
    forall i, j :: 0 <= i < j < n ==> !Nested(cs[j], cs[i])
  }

  lemma NestedTransitive(x: Clause, y: Clause, z: Clause)
    requires Nested(x, y) && Nested(y, z)
    ensures Nested(x, z)
  {
  }

  lemma NotNestedInItself(x: Clause, codeSize: nat)
    requires x.Valid(codeSize)
    ensures !Nested(x, x)
  {
  }

  // ---------------------------------------------------------------------------
  // The sort
  // ---------------------------------------------------------------------------

  /** The program's test: the try block of x lies in the try block or the handler of y and has another length. */
  predicate ClauseXInsideY(x: Clause, y: Clause)
  {
    || (x.tryOffset >= y.tryOffset && x.tryOffset + x.tryLength <= y.tryOffset + y.tryLength
        && x.tryLength != y.tryLength)
    || (x.tryOffset >= y.handlerOffset && x.tryOffset + x.tryLength <= y.handlerOffset + y.handlerLength
        && x.tryLength != y.handlerLength)
  }

  /** Under the rules the test says whether all of x lies in the try block or the handler of y. */
  lemma InsideMeansNested(x: Clause, y: Clause, codeSize: nat)
    requires x.Valid(codeSize) && y.Valid(codeSize) && Compatible(x, y)
    ensures ClauseXInsideY(x, y) <==> x.Inside(y.Try()) || x.Inside(y.Handler())
  {
    if MayPrecede(x, y) {
      InsideWhenFirst(x, y, codeSize);
    } else {
      InsideWhenSecond(x, y, codeSize);
    }
  }

  lemma InsideWhenFirst(x: Clause, y: Clause, codeSize: nat)
    requires x.Valid(codeSize) && y.Valid(codeSize) && MayPrecede(x, y)
    ensures ClauseXInsideY(x, y) <==> x.Inside(y.Try()) || x.Inside(y.Handler())
  {
  }

  lemma InsideWhenSecond(x: Clause, y: Clause, codeSize: nat)
    requires x.Valid(codeSize) && y.Valid(codeSize) && MayPrecede(y, x)
    ensures ClauseXInsideY(x, y) <==> x.Inside(y.Try()) || x.Inside(y.Handler())
  {
  }

  /** Under the rules the test misses a nested clause exactly when it is nested in a filter. */
  lemma MissedExactlyInFilters(x: Clause, y: Clause, codeSize: nat)
    requires x.Valid(codeSize) && y.Valid(codeSize) && Compatible(x, y)
    ensures Nested(x, y) && !ClauseXInsideY(x, y) <==> y.kind.FilterAt? && x.Inside(y.First())
  {
    InsideMeansNested(x, y, codeSize);
  }

  /** A clause at 2 inside a filter from 1 to 5 is such a one. */
  lemma NestedInFilterIsMissed(x: Clause, y: Clause)
    requires x == Clause(2, 1, 3, 1, Catch) && y == Clause(0, 1, 5, 1, FilterAt(1))
    ensures x.Valid(6) && y.Valid(6) && MayPrecede(x, y) && Nested(x, y) && !ClauseXInsideY(x, y)
  {
  }

  /** The element at j moved to i, and those between shifted up. */
  function Moved(cs: seq<Clause>, i: nat, j: nat): seq<Clause>
    requires i <= j < |cs|
  {
    cs[..i] + [cs[j]] + cs[i..j] + cs[j + 1..]
  }

  lemma MovedKeeps(cs: seq<Clause>, i: nat, j: nat)
    requires i <= j < |cs|
    ensures multiset(Moved(cs, i, j)) == multiset(cs) && |Moved(cs, i, j)| == |cs|
  {
    Stretches(cs, i, j);
  }

  lemma MovedNowhere(cs: seq<Clause>, j: nat)
    requires j < |cs|
    ensures Moved(cs, j, j) == cs
  {
  }

  lemma Stretches(cs: seq<Clause>, i: nat, j: nat)
    requires i <= j < |cs|
    ensures cs == cs[..i] + cs[i..j] + [cs[j]] + cs[j + 1..]
  {
  }

  /** Where the elements of the moved sequence come from. */
  function Source(i: nat, j: nat, k: nat): nat
    requires i <= j
  {
    if k < i || k > j then k else if k == i then j else k - 1
  }

  lemma MovedAt(cs: seq<Clause>, i: nat, j: nat, k: nat)
    requires i <= j < |cs| && k < |cs|
    ensures |Moved(cs, i, j)| == |cs| && Source(i, j, k) < |cs| && Moved(cs, i, j)[k] == cs[Source(i, j, k)]
  {
  }

  /** No clause of the first n passes the test against an earlier one: what the program asserts of its list. */
  ghost predicate TestFirst(cs: seq<Clause>, n: nat)
    requires n <= |cs|
  {
    forall i, j :: 0 <= i < j < n ==> !ClauseXInsideY(cs[j], cs[i])
  }

  lemma TestTransitive(x: Clause, y: Clause, z: Clause, codeSize: nat)
    requires x.Valid(codeSize) && y.Valid(codeSize) && z.Valid(codeSize)
    requires Compatible(x, y) && Compatible(y, z) && (x == z || Compatible(x, z))
    requires ClauseXInsideY(x, y) && ClauseXInsideY(y, z)
    ensures x != z && ClauseXInsideY(x, z)
  {
    InsideMeansNested(x, y, codeSize);
    InsideMeansNested(y, z, codeSize);
    if x == z {
      NotNestedInItself(x, codeSize);
    } else {
      InsideMeansNested(x, z, codeSize);
    }
  }

  /** Where the key goes: before the first clause that it passes the test against, or nowhere. */
  ghost predicate IsPlace(cs: seq<Clause>, i: nat, j: nat)
  {
    && i <= j < |cs| && (i < j ==> ClauseXInsideY(cs[j], cs[i]))
    && forall k :: 0 <= k < i ==> !ClauseXInsideY(cs[j], cs[k])
  }

  /** Moved to its place the key keeps the rules and the order of the test. */
  lemma MoveKeepsOrder(cs: seq<Clause>, i: nat, j: nat, codeSize: nat)
    requires Rules(cs, codeSize) && IsPlace(cs, i, j) && TestFirst(cs, j)
    ensures Rules(Moved(cs, i, j), codeSize) && TestFirst(Moved(cs, i, j), j + 1)
  {
    var moved := Moved(cs, i, j);
    MovedKeeps(cs, i, j);
    forall k | 0 <= k < |cs| ensures moved[k].Valid(codeSize) {
      MovedAt(cs, i, j, k);
    }
    forall a, b | 0 <= a < b < |cs|
      ensures Compatible(moved[a], moved[b]) && (b <= j ==> !ClauseXInsideY(moved[b], moved[a]))
    {
      MovedAt(cs, i, j, a);
      MovedAt(cs, i, j, b);
      PairInOrder(cs, i, j, Source(i, j, a), Source(i, j, b), codeSize);
    }
  }

  lemma PairInOrder(cs: seq<Clause>, i: nat, j: nat, a: nat, b: nat, codeSize: nat)
    requires Rules(cs, codeSize) && IsPlace(cs, i, j) && TestFirst(cs, j)
    requires a < |cs| && b < |cs| && (a < b || (a == j && i <= b < j)) && !(i <= a < j && b == j)
    ensures Compatible(cs[a], cs[b])
    ensures a <= j && b <= j ==> !ClauseXInsideY(cs[b], cs[a])
  {
    if a == j && b < j {
      KeyPassesNone(cs, i, j, b, codeSize);
    } else {
      assert Compatible(cs[a], cs[b]);
    }
  }

  lemma KeyPassesNone(cs: seq<Clause>, i: nat, j: nat, m: nat, codeSize: nat)
    requires Rules(cs, codeSize) && i <= m < j < |cs| && TestFirst(cs, j) && ClauseXInsideY(cs[j], cs[i])
    ensures Compatible(cs[j], cs[m]) && !ClauseXInsideY(cs[m], cs[j])
  {
    PairAt(cs, m, j, codeSize);
    PairAt(cs, i, j, codeSize);
    PairAt(cs, m, i, codeSize);
    if ClauseXInsideY(cs[m], cs[j]) {
      TestTransitive(cs[m], cs[j], cs[i], codeSize);
    }
  }

  lemma Symmetric(x: Clause, y: Clause)
    ensures Compatible(x, y) <==> Compatible(y, x)
  {
  }

  lemma PairAt(cs: seq<Clause>, a: nat, b: nat, codeSize: nat)
    requires Rules(cs, codeSize) && a < |cs| && b < |cs|
    ensures cs[a].Valid(codeSize) && cs[b].Valid(codeSize)
    ensures a == b || (Compatible(cs[a], cs[b]) && Compatible(cs[b], cs[a]))
  {
    Symmetric(cs[a], cs[b]);
  }

  /** The clauses of one try block, in order. */
  function HandlersOf(cs: seq<Clause>, r: Range): seq<Clause>
  {
    if cs == [] then []
    else (if cs[0].Try() == r then [cs[0]] else []) + HandlersOf(cs[1..], r)
  }

  lemma {:induction false} HandlersOfConcat(a: seq<Clause>, b: seq<Clause>, r: Range)
    ensures HandlersOf(a + b, r) == HandlersOf(a, r) + HandlersOf(b, r)
  {
    if a == [] {
      assert a + b == b;
    } else {
      assert (a + b)[1..] == a[1..] + b;
      HandlersOfConcat(a[1..], b, r);
    }
  }

  lemma {:induction false} HandlersOfNone(cs: seq<Clause>, r: Range)
    requires forall k :: 0 <= k < |cs| ==> cs[k].Try() != r
    ensures HandlersOf(cs, r) == []
  {
    if cs != [] {
      HandlersOfNone(cs[1..], r);
    }
  }

  /** The key passes no clause of its own try block: the test looks at nothing else of it. */
  lemma SameTryIsNotPassed(cs: seq<Clause>, i: nat, j: nat, m: nat, codeSize: nat)
    requires Rules(cs, codeSize) && i <= m < j < |cs| && TestFirst(cs, j) && ClauseXInsideY(cs[j], cs[i])
    ensures cs[m].Try() != cs[j].Try()
  {
    assert cs[i].Valid(codeSize);
  }

  /** Two stretches change places when one of them has no handler of the try block. */
  lemma SwapKeepsHandlers(before: seq<Clause>, x: seq<Clause>, y: seq<Clause>, after: seq<Clause>, r: Range)
    requires HandlersOf(x, r) == [] || HandlersOf(y, r) == []
    ensures HandlersOf(before + x + y + after, r) == HandlersOf(before + y + x + after, r)
  {
    HandlersOfConcat(before + x + y, after, r);
    HandlersOfConcat(before + x, y, r);
    HandlersOfConcat(before, x, r);
    HandlersOfConcat(before + y + x, after, r);
    HandlersOfConcat(before + y, x, r);
    HandlersOfConcat(before, y, r);
  }

  lemma KeyOrPassedHasNone(cs: seq<Clause>, i: nat, j: nat, codeSize: nat, r: Range)
    requires Rules(cs, codeSize) && IsPlace(cs, i, j) && TestFirst(cs, j)
    ensures HandlersOf([cs[j]], r) == [] || HandlersOf(cs[i..j], r) == []
  {
    if cs[j].Try() == r {
      forall m | i <= m < j ensures cs[m].Try() != r {
        SameTryIsNotPassed(cs, i, j, m, codeSize);
      }
      StretchHasNone(cs, i, j, r);
    } else {
      HandlersOfNone([cs[j]], r);
    }
  }

  lemma StretchHasNone(cs: seq<Clause>, i: nat, j: nat, r: Range)
    requires i <= j <= |cs| && forall m :: i <= m < j ==> cs[m].Try() != r
    ensures HandlersOf(cs[i..j], r) == []
  {
    assert forall k :: 0 <= k < j - i ==> cs[i..j][k] == cs[i + k];
    HandlersOfNone(cs[i..j], r);
  }

  lemma MoveKeepsHandlers(cs: seq<Clause>, i: nat, j: nat, codeSize: nat, r: Range)
    requires Rules(cs, codeSize) && IsPlace(cs, i, j) && TestFirst(cs, j)
    ensures HandlersOf(Moved(cs, i, j), r) == HandlersOf(cs, r)
  {
    KeyOrPassedHasNone(cs, i, j, codeSize, r);
    PassingKeepsHandlers(cs, i, j, r);
  }

  lemma PassingKeepsHandlers(cs: seq<Clause>, i: nat, j: nat, r: Range)
    requires i <= j < |cs| && (HandlersOf([cs[j]], r) == [] || HandlersOf(cs[i..j], r) == [])
    ensures HandlersOf(Moved(cs, i, j), r) == HandlersOf(cs, r)
  {
    Stretches(cs, i, j);
    SwapKeepsHandlers(cs[..i], [cs[j]], cs[i..j], cs[j + 1..], r);
  }

  method FindPlace(list: seq<Clause>, j: nat) returns (i: nat)
    requires j < |list|
    ensures IsPlace(list, i, j)
  {
    i := 0;
    while i < j && !ClauseXInsideY(list[j], list[i])
      invariant i <= j && forall k :: 0 <= k < i ==> !ClauseXInsideY(list[j], list[k])
    {
      i := i + 1;
    }
  }

  // ---------------------------------------------------------------------------
  // When the sort puts inner clauses first
  // ---------------------------------------------------------------------------

  predicate InFilter(x: Clause, y: Clause)
  {
    y.kind.FilterAt? && x.Inside(y.First())
  }

  /** Clause j, in the filter of clause i, is nested in a clause of that filter that is listed before i. */
  ghost predicate Sheltered(cs: seq<Clause>, i: nat, j: nat)
    requires i < |cs| && j < |cs|
  {
    exists k :: 0 <= k < i && cs[k].Inside(cs[i].First()) && ClauseXInsideY(cs[j], cs[k])
  }

  /** Of the first n clauses, what lies in a filter is listed before the filter's clause or is sheltered. */
  ghost predicate FiltersSheltered(cs: seq<Clause>, n: nat)
    requires n <= |cs|
  {
    forall i, j :: 0 <= i < j < n && InFilter(cs[j], cs[i]) ==> Sheltered(cs, i, j)
  }

  /** A clause in a filter that is listed after the filter's clause is sheltered by a clause around it that is
      listed before, and is not without it. */
  lemma ShelterMatters(x: Clause, w: Clause, y: Clause)
    requires x == Clause(1, 1, 2, 1, Catch) && w == Clause(1, 3, 4, 2, Catch)
    requires y == Clause(10, 2, 8, 2, FilterAt(0))
    ensures Rules([w, y, x], 12) && FiltersSheltered([w, y, x], 3)
    ensures Rules([y, x], 12) && !FiltersSheltered([y, x], 2)
  {
    var cs := [w, y, x];
    assert cs[0].Inside(cs[1].First()) && ClauseXInsideY(cs[2], cs[0]);
    assert Sheltered(cs, 1, 2);
    assert InFilter([y, x][1], [y, x][0]);
  }

  /** The first n clauses have been sorted. */
  ghost predicate SortedSoFar(cs: seq<Clause>, list: seq<Clause>, n: nat, codeSize: nat)
  {
    && |list| == |cs| && n <= |cs| && multiset(list[..n]) == multiset(cs[..n]) && list[n..] == cs[n..]
    && Rules(cs, codeSize) && Rules(list, codeSize) && TestFirst(list, n)
  }

  lemma Listed(cs: seq<Clause>, list: seq<Clause>, n: nat, m: nat) returns (y: nat)
    requires |list| == |cs| && m < n <= |cs| && multiset(list[..n]) == multiset(cs[..n])
    ensures y < n && cs[y] == list[m]
  {
    assert list[..n][m] in multiset(cs[..n]);
    y :| 0 <= y < n && cs[..n][y] == list[m];
  }

  /** A clause that may precede another one is nested in it when a try block or handler of the one and the
      filter of the other have code in common. */
  lemma CommonCodeNests(x: Clause, y: Clause, r: Range, codeSize: nat)
    requires x.Valid(codeSize) && y.Valid(codeSize) && r.start < r.end
    requires (Within(r, x.Try()) || Within(r, x.Handler())) && y.kind.FilterAt? && Within(r, y.First())
    ensures MayPrecede(x, y) ==> x.Inside(y.First())
    ensures MayPrecede(y, x) ==> Nested(y, x)
  {
  }

  /** A clause that the key passes the test against lies in the filter that the key lies in, unless that
      filter's clause is nested in it. */
  lemma ShelterInFilter(key: Clause, w: Clause, y: Clause, codeSize: nat)
    requires key.Valid(codeSize) && w.Valid(codeSize) && y.Valid(codeSize)
    requires Compatible(key, w) && Compatible(w, y) && ClauseXInsideY(key, w) && InFilter(key, y) && !Nested(y, w)
    ensures w.Inside(y.First())
  {
    InsideMeansNested(key, w, codeSize);
    CommonCodeNests(w, y, key.Try(), codeSize);
  }

  /** The key is in order among the sorted clauses if it is nested in none that it was not put before. */
  lemma KeyInOrder(list: seq<Clause>, i: nat, j: nat, codeSize: nat)
    requires Rules(list, codeSize) && IsPlace(list, i, j) && InnerFirst(list, j)
    requires forall m :: 0 <= m < i ==> !Nested(list[j], list[m])
    ensures InnerFirst(Moved(list, i, j), j + 1)
  {
    var moved := Moved(list, i, j);
    MovedKeeps(list, i, j);
    forall a, b | 0 <= a < b < j + 1 ensures !Nested(moved[b], moved[a]) {
      MovedAt(list, i, j, a);
      MovedAt(list, i, j, b);
      NestedPair(list, i, j, Source(i, j, a), Source(i, j, b), codeSize);
    }
  }

  lemma NestedPair(list: seq<Clause>, i: nat, j: nat, a: nat, b: nat, codeSize: nat)
    requires Rules(list, codeSize) && IsPlace(list, i, j) && InnerFirst(list, j)
    requires forall m :: 0 <= m < i ==> !Nested(list[j], list[m])
    requires a <= j && b <= j && (a < b || (a == j && i <= b < j)) && !(i <= a < j && b == j)
    ensures !Nested(list[b], list[a])
  {
    if a == j {
      KeyHoldsNone(list, i, j, b, codeSize);
    }
  }

  lemma KeyNotNested(list: seq<Clause>, i: nat, j: nat, m: nat)
    requires m < i <= j < |list| && InnerFirst(Moved(list, i, j), j + 1)
    ensures !Nested(list[j], list[m])
  {
    var moved := Moved(list, i, j);
    MovedAt(list, i, j, m);
    MovedAt(list, i, j, i);
    assert !Nested(moved[i], moved[m]);
  }

  /** What lies after the place of the key is not nested in the key, since the key is nested in the clause there. */
  lemma KeyHoldsNone(cs: seq<Clause>, i: nat, j: nat, m: nat, codeSize: nat)
    requires Rules(cs, codeSize) && i <= m < j < |cs| && InnerFirst(cs, j) && ClauseXInsideY(cs[j], cs[i])
    ensures !Nested(cs[m], cs[j])
  {
    InsideMeansNested(cs[j], cs[i], codeSize);
    if Nested(cs[m], cs[j]) {
      NestedTransitive(cs[m], cs[j], cs[i]);
      NotNestedInItself(cs[i], codeSize);
    }
  }

  /** Two sorted clauses keep their order when the key is moved. */
  lemma OrderStays(list: seq<Clause>, i: nat, j: nat)
    requires i <= j < |list| && InnerFirst(Moved(list, i, j), j + 1)
    ensures InnerFirst(list, j)
  {
    var moved := Moved(list, i, j);
    forall a, b | 0 <= a < b < j ensures !Nested(list[b], list[a]) {
      var a', b' := if a < i then a else a + 1, if b < i then b else b + 1;
      MovedAt(list, i, j, a');
      MovedAt(list, i, j, b');
      assert !Nested(moved[b'], moved[a']);
    }
  }

  /** A clause that a clause in a filter passes the test against shelters it, or is sheltered itself. */
  lemma ShelterFound(cs: seq<Clause>, j: nat, k: nat, y: nat, codeSize: nat)
    requires Rules(cs, codeSize) && j < |cs| && FiltersSheltered(cs, j) && k < j && y < j && k != y
    requires ClauseXInsideY(cs[j], cs[k]) && InFilter(cs[j], cs[y]) && !Nested(cs[y], cs[k])
    ensures Sheltered(cs, y, j)
  {
    PairAt(cs, j, k, codeSize);
    PairAt(cs, k, y, codeSize);
    ShelterInFilter(cs[j], cs[k], cs[y], codeSize);
    if y < k {
      ShelterAbove(cs, j, k, y, codeSize);
    }
  }

  lemma ShelterAbove(cs: seq<Clause>, j: nat, k: nat, y: nat, codeSize: nat)
    requires Rules(cs, codeSize) && y < k < j < |cs| && ClauseXInsideY(cs[j], cs[k]) && Sheltered(cs, y, k)
    ensures Sheltered(cs, y, j)
  {
    var k' :| 0 <= k' < y && cs[k'].Inside(cs[y].First()) && ClauseXInsideY(cs[k], cs[k']);
    PairAt(cs, j, k, codeSize);
    PairAt(cs, k, k', codeSize);
    PairAt(cs, j, k', codeSize);
    TestTransitive(cs[j], cs[k], cs[k'], codeSize);
  }

  /** If the key is in order, it is sheltered in each filter that it lies in and that was listed before it. */
  lemma InOrderIsSheltered(cs: seq<Clause>, list: seq<Clause>, i: nat, j: nat, y: nat, codeSize: nat)
    requires SortedSoFar(cs, list, j, codeSize) && j < |cs| && IsPlace(list, i, j)
    requires InnerFirst(list, j) && FiltersSheltered(cs, j)
    requires (forall m :: 0 <= m < i ==> !Nested(list[j], list[m])) && y < j && InFilter(cs[j], cs[y])
    ensures Sheltered(cs, y, j)
  {
    SameKey(cs, list, j);
    var p := Listed(list, cs, j, y);
    FilterIsPassed(cs[j], cs[y], codeSize);
    assert Nested(list[j], list[p]);
    assert i < p;
    var k := Listed(cs, list, j, i);
    assert !Nested(list[p], list[i]);
    ShelterFound(cs, j, k, y, codeSize);
  }

  lemma SameKey(cs: seq<Clause>, list: seq<Clause>, j: nat)
    requires |list| == |cs| && j < |cs| && list[j..] == cs[j..]
    ensures list[j] == cs[j]
  {
    assert list[j] == list[j..][0] == cs[j..][0] == cs[j];
  }

  lemma FilterIsPassed(x: Clause, y: Clause, codeSize: nat)
    requires x.Valid(codeSize) && y.Valid(codeSize) && InFilter(x, y)
    ensures Nested(x, y) && !ClauseXInsideY(x, y)
  {
  }

  /** If the key is sheltered in those filters, it is nested in no clause that it was not put before. */
  lemma ShelteredIsInOrder(cs: seq<Clause>, list: seq<Clause>, i: nat, j: nat, m: nat, codeSize: nat)
    requires SortedSoFar(cs, list, j, codeSize) && j < |cs| && IsPlace(list, i, j)
    requires InnerFirst(list, j) && m < i
    requires forall y :: 0 <= y < j && InFilter(cs[j], cs[y]) ==> Sheltered(cs, y, j)
    ensures !Nested(list[j], list[m])
  {
    SameKey(cs, list, j);
    var y := Listed(cs, list, j, m);
    PairAt(cs, j, y, codeSize);
    MissedExactlyInFilters(cs[j], cs[y], codeSize);
    if InFilter(cs[j], cs[y]) {
      ShelterIsBefore(cs, list, j, m, y, codeSize);
    }
  }

  /** The clause that shelters stands before the filter's clause, so the key is put before both. */
  lemma ShelterIsBefore(cs: seq<Clause>, list: seq<Clause>, j: nat, m: nat, y: nat, codeSize: nat)
    requires SortedSoFar(cs, list, j, codeSize) && j < |cs| && InnerFirst(list, j)
    requires m < j && y < j && cs[y] == list[m] && Sheltered(cs, y, j)
    ensures exists p :: 0 <= p < m && ClauseXInsideY(cs[j], list[p])
  {
    var k :| 0 <= k < y && cs[k].Inside(cs[y].First()) && ClauseXInsideY(cs[j], cs[k]);
    var p := Listed(list, cs, j, k);
    assert Nested(list[p], list[m]);
    NestedIsBefore(list, j, p, m, codeSize);
  }

  lemma NestedIsBefore(list: seq<Clause>, n: nat, p: nat, m: nat, codeSize: nat)
    requires Rules(list, codeSize) && n <= |list| && InnerFirst(list, n) && p < n && m < n && Nested(list[p], list[m])
    ensures p < m
  {
    NotNestedInItself(list[m], codeSize);
  }

  /** One step of the sort keeps: inner clauses first if and only if filters are sheltered. */
  lemma StepIsExact(cs: seq<Clause>, list: seq<Clause>, i: nat, j: nat, codeSize: nat)
    requires SortedSoFar(cs, list, j, codeSize) && j < |cs| && IsPlace(list, i, j)
    requires InnerFirst(list, j) <==> FiltersSheltered(cs, j)
    ensures InnerFirst(Moved(list, i, j), j + 1) <==> FiltersSheltered(cs, j + 1)
  {
    MovedKeeps(list, i, j);
    if InnerFirst(list, j) {
      if InnerFirst(Moved(list, i, j), j + 1) {
        forall m | 0 <= m < i ensures !Nested(list[j], list[m]) {
          KeyNotNested(list, i, j, m);
        }
        forall y | 0 <= y < j && InFilter(cs[j], cs[y]) ensures Sheltered(cs, y, j) {
          InOrderIsSheltered(cs, list, i, j, y, codeSize);
        }
      }
      if FiltersSheltered(cs, j + 1) {
        forall m | 0 <= m < i ensures !Nested(list[j], list[m]) {
          ShelteredIsInOrder(cs, list, i, j, m, codeSize);
        }
        KeyInOrder(list, i, j, codeSize);
      }
    } else if InnerFirst(Moved(list, i, j), j + 1) {
      OrderStays(list, i, j);
    }
  }

  /** The insertion sort. No clause ends up before one that passes the test against it, and the handlers of each
      try block keep the order in which they are tried. No clause ends up before one that is nested in it if
      and only if filters are sheltered in the listing. */
  method SortClauses(clauses: seq<Clause>, ghost codeSize: nat) returns (list: seq<Clause>)
    requires Rules(clauses, codeSize) && clauses != []
    ensures multiset(list) == multiset(clauses) && |list| == |clauses|
    ensures Rules(list, codeSize) && TestFirst(list, |list|)
    ensures forall r :: HandlersOf(list, r) == HandlersOf(clauses, r)
    ensures InnerFirst(list, |list|) <==> FiltersSheltered(clauses, |clauses|)
  {
    list := clauses;
    OneIsSorted(clauses, codeSize);
    for j := 1 to |clauses|
      invariant Progress(clauses, list, j, codeSize)
    {
      list := Insert(clauses, list, j, codeSize);
    }
    AllAreSorted(clauses, list, codeSize);
  }

  /** One round: the key is moved to its place. */
  method Insert(ghost clauses: seq<Clause>, list: seq<Clause>, j: nat, ghost codeSize: nat) returns (list': seq<Clause>)
    requires Progress(clauses, list, j, codeSize) && j < |list|
    ensures Progress(clauses, list', j + 1, codeSize)
  {
    var i := FindPlace(list, j);
    MoveProgresses(clauses, list, i, j, codeSize);
    MovedNowhere(list, j);
    list' := if i != j then Moved(list, i, j) else list;
  }

  lemma OneIsSorted(cs: seq<Clause>, codeSize: nat)
    requires Rules(cs, codeSize) && cs != []
    ensures Progress(cs, cs, 1, codeSize)
  {
  }

  lemma AllAreSorted(cs: seq<Clause>, list: seq<Clause>, codeSize: nat)
    requires SortedSoFar(cs, list, |cs|, codeSize)
    ensures |list| == |cs| && multiset(list) == multiset(cs)
  {
    assert list[..|list|] == list && cs[..|cs|] == cs;
  }

  /** What every step of the sort keeps. */
  ghost predicate Progress(cs: seq<Clause>, list: seq<Clause>, n: nat, codeSize: nat)
  {
    && SortedSoFar(cs, list, n, codeSize)
    && (forall r :: HandlersOf(list, r) == HandlersOf(cs, r))
    && (InnerFirst(list, n) <==> FiltersSheltered(cs, n))
  }

  lemma MoveProgresses(cs: seq<Clause>, list: seq<Clause>, i: nat, j: nat, codeSize: nat)
    requires Progress(cs, list, j, codeSize) && j < |list| && IsPlace(list, i, j)
    ensures Progress(cs, Moved(list, i, j), j + 1, codeSize)
  {
    StepIsExact(cs, list, i, j, codeSize);
    MoveSorts(cs, list, i, j, codeSize);
    forall r ensures HandlersOf(Moved(list, i, j), r) == HandlersOf(cs, r) {
      MoveKeepsHandlers(list, i, j, codeSize, r);
    }
  }

  lemma MoveSorts(cs: seq<Clause>, list: seq<Clause>, i: nat, j: nat, codeSize: nat)
    requires SortedSoFar(cs, list, j, codeSize) && j < |list| && IsPlace(list, i, j)
    ensures SortedSoFar(cs, Moved(list, i, j), j + 1, codeSize)
  {
    MoveKeepsOrder(list, i, j, codeSize);
    MovedKeeps(list, i, j);
    MovedParts(list, i, j);
    SameKey(cs, list, j);
    assert cs[..j + 1] == cs[..j] + [cs[j]];
    assert list[j + 1..] == list[j..][1..] == cs[j..][1..] == cs[j + 1..];
  }

  lemma MovedParts(list: seq<Clause>, i: nat, j: nat)
    requires i <= j < |list|
    ensures |Moved(list, i, j)| == |list| && Moved(list, i, j)[j + 1..] == list[j + 1..]
    ensures multiset(Moved(list, i, j)[..j + 1]) == multiset(list[..j]) + multiset{list[j]}
  {
    assert Moved(list, i, j)[..j + 1] == list[..i] + [list[j]] + list[i..j];
    assert list[..j] == list[..i] + list[i..j];
  }

  /** In a list with inner clauses first each clause may precede each later one. */
  lemma SortedPrecede(cs: seq<Clause>, codeSize: nat, i: nat, j: nat)
    requires Rules(cs, codeSize) && InnerFirst(cs, |cs|) && i < j < |cs|
    ensures MayPrecede(cs[i], cs[j])
  {
    assert Compatible(cs[i], cs[j]) && !Nested(cs[j], cs[i]);
  }
}
