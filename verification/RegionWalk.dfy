/** The walk along the code that keeps track of the innermost exception region and of the try regions that
    are entered. */
module RegionWalk {
  import opened EHClauses
  import opened EHRegions
  import opened Options

  function Point(offset: nat): Range
  {
    Range(offset, offset + 1)
  }

  predicate Contains(r: Range, offset: nat)
  {
    r.start <= offset < r.end
  }

  /** Region k is the innermost one around an offset. */
  ghost predicate InnermostAt(rs: seq<Region>, offset: nat, k: nat)
  {
    && k < |rs| && Contains(rs[k].range, offset)
    && forall i :: 0 <= i < |rs| && Contains(rs[i].range, offset) ==> Within(rs[k].range, rs[i].range)
  }

  predicate Encloses(rs: seq<Region>, r: nat, h: nat)
    requires Linked(rs)
  {
    0 < h < |rs| && EnclosingAncestor(rs, h) == r
  }

  // ---------------------------------------------------------------------------
  // Transitions
  // ---------------------------------------------------------------------------

  /** The region does not contain the offset, and does not start between it and the transition. */
  predicate Passed(region: Region, offset: nat, transition: nat)
  {
    !Contains(region.range, offset) && (offset < region.range.start ==> transition <= region.range.start)
  }

  /** The transition is where the region ends or the next region directly enclosed by it starts. */
  ghost predicate IsTransition(rs: seq<Region>, r: nat, offset: nat, transition: nat)
    requires Linked(rs) && r < |rs|
  {
    && offset < transition <= rs[r].range.end
    && (transition == rs[r].range.end || exists h: nat :: Encloses(rs, r, h) && rs[h].range.start == transition)
  }

  lemma InnermostOfPoint(rs: seq<Region>, offset: nat, k: nat)
    requires Innermost(rs, Point(offset), k)
    ensures InnermostAt(rs, offset, k)
  {
    assert forall i :: 0 <= i < |rs| && Contains(rs[i].range, offset) ==> Within(Point(offset), rs[i].range);
  }

  /** Until the transition the region is the innermost one. */
  lemma QuietUntilTransition(rs: seq<Region>, r: nat, offset: nat, transition: nat, o: nat)
    requires Tree(rs) && r < |rs| && Contains(rs[r].range, offset) && IsTransition(rs, r, offset, transition)
    requires forall h: nat :: Encloses(rs, r, h) ==> Passed(rs[h], offset, transition)
    requires offset <= o < transition
    ensures InnermostAt(rs, o, r)
  {
    forall h | 0 < h < |rs| && EnclosingAncestor(rs, h) == r ensures !Within(Point(o), rs[h].range) {
      assert Encloses(rs, r, h);
    }
    NoneInsideIsInnermost(rs, Point(o), r);
    InnermostOfPoint(rs, o, r);
  }

  /** At the transition it no longer is. */
  lemma TransitionChanges(rs: seq<Region>, r: nat, offset: nat, transition: nat)
    requires Tree(rs) && r < |rs| && IsTransition(rs, r, offset, transition)
    ensures !InnermostAt(rs, transition, r)
  {
    if transition != rs[r].range.end {
      var h: nat :| Encloses(rs, r, h) && rs[h].range.start == transition;
      assert EnclosedBy(rs, h, EnclosingAncestor(rs, h));
      assert Contains(rs[h].range, transition);
    }
  }

  /** A handler or filter and its try region are apart. */
  lemma HandlerApart(rs: seq<Region>, t: nat, h: nat)
    requires Tree(rs) && IsHandlerOf(rs, t, h) && t < |rs| && h > 0
    ensures Apart(rs[t].range, rs[h].range)
  {
    var p := EnclosingAncestor(rs, h);
    assert rs[t].kind == Try && t > 0 && p == EnclosingAncestor(rs, t);
    assert EnclosedBy(rs, h, p) && EnclosedBy(rs, t, p);
    assert Laminar(rs[t].range, rs[h].range);
  }

  // ---------------------------------------------------------------------------
  // Looking for the region to switch to
  // ---------------------------------------------------------------------------

  /** A child, and the handlers and filters of a child that is a try region, are passed. */
  ghost predicate ChildPassed(rs: seq<Region>, c: nat, offset: nat, transition: nat)
    requires c < |rs|
  {
    && Passed(rs[c], offset, transition)
    && (rs[c].kind == Try ==> forall h: nat :: IsHandlerOf(rs, c, h) ==> Passed(rs[h], offset, transition))
  }

  /** The inner loop, over the children of a try region that does not contain the offset. */
  method ScanGrandchildren(rs: seq<Region>, r: nat, c: nat, offset: nat, transition0: nat)
    returns (found: Option<nat>, transition: nat)
    requires Tree(rs) && r < |rs| && IsChild(rs, r, c) && rs[c].kind == Try && Passed(rs[c], offset, transition0)
    requires IsTransition(rs, r, offset, transition0)
    ensures IsTransition(rs, r, offset, transition) && transition <= transition0
    ensures match found
            case Some(g) => IsHandlerOf(rs, c, g) && Encloses(rs, r, g) && Contains(rs[g].range, offset)
            case None => ChildPassed(rs, c, offset, transition)
  {
    transition, found := transition0, None;
    var list := rs[c].children;
    ChildrenAreChildren(rs, c);
    for i := 0 to |list|
      invariant IsTransition(rs, r, offset, transition) && transition <= transition0
      invariant forall j :: 0 <= j < i ==> Passed(rs[list[j]], offset, transition)
    {
      var g := list[i];
      assert IsChild(rs, c, g);
      GrandchildIsNear(rs, r, c, g, offset, transition);
      if offset < rs[g].range.start {
        if rs[g].range.start < transition {
          transition := rs[g].range.start;
        }
      } else if offset < rs[g].range.end {
        return Some(g), transition;
      }
    }
    forall h: nat | IsHandlerOf(rs, c, h) ensures Passed(rs[h], offset, transition) {
      HandlerIsChild(rs, c, h);
      var j :| 0 <= j < |list| && list[j] == h;
    }
  }

  lemma HandlerIsChild(rs: seq<Region>, c: nat, h: nat)
    requires Linked(rs) && IsHandlerOf(rs, c, h) && c < |rs|
    ensures 0 < h && h in rs[c].children
  {
    assert IsChild(rs, c, h);
  }

  /** A handler or filter of a child is directly enclosed; a try region below a child lies in the child. */
  lemma GrandchildIsNear(rs: seq<Region>, r: nat, c: nat, g: nat, offset: nat, transition: nat)
    requires Tree(rs) && IsChild(rs, r, c) && rs[c].kind == Try && IsChild(rs, c, g)
    requires Passed(rs[c], offset, transition)
    ensures if OutsideParent(rs[g].kind) then IsHandlerOf(rs, c, g) && Encloses(rs, r, g)
            else Passed(rs[g], offset, transition)
  {
    if !OutsideParent(rs[g].kind) {
      assert EnclosedBy(rs, g, EnclosingAncestor(rs, g));
    }
  }

  /** The outer loop, over the children of a region that contains the offset. */
  method ScanChildren(rs: seq<Region>, entryRegion: map<nat, nat>, r: nat, offset: nat)
    returns (found: Option<nat>, enter: Option<nat>, transition: nat)
    requires Tree(rs) && Entries(rs, entryRegion) && r < |rs| && Contains(rs[r].range, offset)
    ensures match found
            case Some(c) => Encloses(rs, r, c) && Contains(rs[c].range, offset) && EnteredAt(rs, entryRegion, c, enter)
            case None =>
              && IsTransition(rs, r, offset, transition)
              && forall h: nat :: Encloses(rs, r, h) ==> Passed(rs[h], offset, transition)
  {
    found, enter, transition := None, None, rs[r].range.end;
    for i := 0 to |rs[r].children|
      invariant found.None? && IsTransition(rs, r, offset, transition)
      invariant FirstPassed(rs, r, i, offset, transition)
    {
      ghost var before := transition;
      assert IsChild(rs, r, rs[r].children[i]) by { ChildrenAreChildren(rs, r); }
      found, enter, transition := ScanChild(rs, entryRegion, r, rs[r].children[i], offset, transition);
      if found.Some? {
        return;
      }
      NextPassed(rs, r, i, offset, before, transition);
    }
    AllPassed(rs, r, offset, transition);
  }

  /** The first n children are passed. */
  ghost predicate FirstPassed(rs: seq<Region>, r: nat, n: nat, offset: nat, transition: nat)
    requires r < |rs| && n <= |rs[r].children|
  {
    forall j :: 0 <= j < n ==> rs[r].children[j] < |rs| && ChildPassed(rs, rs[r].children[j], offset, transition)
  }

  lemma NextPassed(rs: seq<Region>, r: nat, n: nat, offset: nat, transition: nat, earlier: nat)
    requires r < |rs| && n < |rs[r].children| && FirstPassed(rs, r, n, offset, transition) && earlier <= transition
    requires rs[r].children[n] < |rs| && ChildPassed(rs, rs[r].children[n], offset, earlier)
    ensures FirstPassed(rs, r, n + 1, offset, earlier)
  {
    forall j | 0 <= j < n ensures ChildPassed(rs, rs[r].children[j], offset, earlier) {
      ChildStaysPassed(rs, rs[r].children[j], offset, transition, earlier);
    }
  }

  lemma ChildStaysPassed(rs: seq<Region>, c: nat, offset: nat, transition: nat, earlier: nat)
    requires c < |rs| && ChildPassed(rs, c, offset, transition) && earlier <= transition
    ensures ChildPassed(rs, c, offset, earlier)
  {
  }

  /** One round of it. The try region that is entered is the one whose entry is the region found. */
  method ScanChild(rs: seq<Region>, entryRegion: map<nat, nat>, r: nat, c: nat, offset: nat, transition0: nat)
    returns (found: Option<nat>, enter: Option<nat>, transition: nat)
    requires Tree(rs) && Entries(rs, entryRegion) && r < |rs| && Contains(rs[r].range, offset)
    requires IsChild(rs, r, c) && IsTransition(rs, r, offset, transition0)
    ensures IsTransition(rs, r, offset, transition) && transition <= transition0
    ensures match found
            case Some(h) => Encloses(rs, r, h) && Contains(rs[h].range, offset) && EnteredAt(rs, entryRegion, h, enter)
            case None => ChildPassed(rs, c, offset, transition)
  {
    found, enter, transition := None, None, transition0;
    ChildIsNear(rs, r, c, offset);
    if offset < rs[c].range.start {
      if rs[c].range.start < transition {
        transition := rs[c].range.start;
      }
    } else if offset < rs[c].range.end {
      EntryOfTry(rs, entryRegion, c);
      return Some(c), if entryRegion[c] == c then Some(c) else None, transition;
    }
    if rs[c].kind == Try {
      found, transition := ScanGrandchildren(rs, r, c, offset, transition);
      if found.Some? {
        EntryOfHandler(rs, entryRegion, c, found.value);
        enter := if entryRegion[c] == found.value then Some(c) else None;
      }
    }
  }

  /** A child that is a try region is directly enclosed; a region's own handlers start after it or end before it. */
  lemma ChildIsNear(rs: seq<Region>, r: nat, c: nat, offset: nat)
    requires Tree(rs) && r < |rs| && IsChild(rs, r, c) && Contains(rs[r].range, offset)
    ensures if OutsideParent(rs[c].kind) then Passed(rs[c], offset, rs[r].range.end)
            else rs[c].kind == Try && Encloses(rs, r, c)
  {
    if OutsideParent(rs[c].kind) {
      HandlerApart(rs, r, c);
    }
  }

  lemma AllPassed(rs: seq<Region>, r: nat, offset: nat, transition: nat)
    requires Tree(rs) && r < |rs|
    requires FirstPassed(rs, r, |rs[r].children|, offset, transition)
    ensures forall h: nat :: Encloses(rs, r, h) ==> Passed(rs[h], offset, transition)
  {
    forall h: nat | Encloses(rs, r, h) ensures Passed(rs[h], offset, transition) {
      DirectlyEnclosedIsNear(rs, r, h);
      var c := if OutsideParent(rs[h].kind) then rs[h].parent else h;
      var j :| 0 <= j < |rs[r].children| && rs[r].children[j] == c;
      assert ChildPassed(rs, rs[r].children[j], offset, transition);
      assert OutsideParent(rs[h].kind) ==> IsHandlerOf(rs, c, h);
    }
  }

  // ---------------------------------------------------------------------------
  // Entering
  // ---------------------------------------------------------------------------

  predicate IsEntryOf(rs: seq<Region>, entryRegion: map<nat, nat>, t: nat, e: nat)
  {
    t < |rs| && rs[t].kind == Try && t in entryRegion && entryRegion[t] == e
  }

  /** At most one try region has region e as its entry, and it is the one entered, if any. */
  ghost predicate EnteredAt(rs: seq<Region>, entryRegion: map<nat, nat>, e: nat, enter: Option<nat>)
  {
    forall t: nat :: IsEntryOf(rs, entryRegion, t, e) <==> enter == Some(t)
  }

  lemma EntryOfTry(rs: seq<Region>, entryRegion: map<nat, nat>, c: nat)
    requires Linked(rs) && Entries(rs, entryRegion) && c < |rs| && rs[c].kind == Try
    ensures c in entryRegion && EnteredAt(rs, entryRegion, c, if entryRegion[c] == c then Some(c) else None)
  {
    forall t: nat | IsEntryOf(rs, entryRegion, t, c) ensures t == c {
      assert IsEntry(rs, t, entryRegion[t]);
    }
  }

  lemma EntryOfHandler(rs: seq<Region>, entryRegion: map<nat, nat>, c: nat, g: nat)
    requires Linked(rs) && Entries(rs, entryRegion) && c < |rs| && rs[c].kind == Try && IsHandlerOf(rs, c, g)
    ensures c in entryRegion && EnteredAt(rs, entryRegion, g, if entryRegion[c] == g then Some(c) else None)
  {
    forall t: nat | IsEntryOf(rs, entryRegion, t, g) ensures t == c {
      assert IsEntry(rs, t, entryRegion[t]);
    }
  }

  /** The try regions that are entered at an offset: those whose entry starts there. */
  predicate EntersAt(rs: seq<Region>, entryRegion: map<nat, nat>, t: nat, offset: nat)
  {
    && t < |rs| && rs[t].kind == Try && t in entryRegion && entryRegion[t] < |rs|
    && rs[entryRegion[t]].range.start == offset
  }

  /** Those of them whose entry lies strictly inside a region. */
  predicate EntersInside(rs: seq<Region>, entryRegion: map<nat, nat>, t: nat, offset: nat, r: nat)
    requires r < |rs|
  {
    EntersAt(rs, entryRegion, t, offset) && StrictlyWithin(rs[entryRegion[t]].range, rs[r].range)
  }

  predicate NoDuplicates(s: seq<nat>)
  {
    forall i, j :: 0 <= i < j < |s| ==> s[i] != s[j]
  }

  /** The range of the entry of a try region. */
  function EntryRange(rs: seq<Region>, entryRegion: map<nat, nat>, t: nat): Range
  {
    if t in entryRegion && entryRegion[t] < |rs| then rs[entryRegion[t]].range else Range(0, 0)
  }

  /** One range starts before another, or with it and around it. */
  predicate Earlier(x: Range, y: Range)
  {
    x.start < y.start || (x.start == y.start && StrictlyWithin(y, x))
  }

  /** Try regions are entered in the order of their entries, outer ones first. */
  ghost predicate InEntryOrder(rs: seq<Region>, entryRegion: map<nat, nat>, entered: seq<nat>)
  {
    forall i, j :: 0 <= i < j < |entered| ==>
      Earlier(EntryRange(rs, entryRegion, entered[i]), EntryRange(rs, entryRegion, entered[j]))
  }

  /** Regions open on both sides of the offset are all around region r. */
  ghost predicate Arrives(rs: seq<Region>, r: nat, offset: nat)
    requires r < |rs|
  {
    forall k :: 0 <= k < |rs| && rs[k].range.start < offset < rs[k].range.end ==> Within(rs[r].range, rs[k].range)
  }

  lemma ArrivesAtAncestor(rs: seq<Region>, r: nat, offset: nat)
    requires Tree(rs) && 0 < r < |rs| && Arrives(rs, r, offset) && offset == rs[r].range.end
    ensures Arrives(rs, EnclosingAncestor(rs, r), offset) && Within(rs[r].range, rs[EnclosingAncestor(rs, r)].range)
  {
    assert EnclosedBy(rs, r, EnclosingAncestor(rs, r));
  }

  /** A region found below starts at the offset: it was not open before. */
  lemma ArrivesBelow(rs: seq<Region>, r: nat, offset: nat, c: nat)
    requires Tree(rs) && r < |rs| && Arrives(rs, r, offset) && Encloses(rs, r, c) && Contains(rs[c].range, offset)
    ensures Arrives(rs, c, offset) && rs[c].range.start == offset && StrictlyWithin(rs[c].range, rs[r].range)
  {
    assert EnclosedBy(rs, c, EnclosingAncestor(rs, c));
  }

  /** What is inside a region and contains the offset lies in the one directly enclosed region that does. */
  lemma InsideTheOne(rs: seq<Region>, r: nat, offset: nat, c: nat, e: nat)
    requires Tree(rs) && r < |rs| && Encloses(rs, r, c) && Contains(rs[c].range, offset)
    requires e < |rs| && e != r && Within(rs[e].range, rs[r].range) && Contains(rs[e].range, offset)
    ensures Within(rs[e].range, rs[c].range)
  {
    var h := DirectlyEnclosed(rs, r, e);
    assert EnclosedBy(rs, h, r) && EnclosedBy(rs, c, r);
    if h < c {
      assert Laminar(rs[h].range, rs[c].range);
    } else if c < h {
      assert Laminar(rs[c].range, rs[h].range);
    }
  }

  /** The region to go on with at an offset, from the one before; the next offset where that may change; and
      the try regions entered, outermost first. */
  method SwitchRegion(rs: seq<Region>, entryRegion: map<nat, nat>, old_: nat, offset: nat)
    returns (region: nat, next: nat, entered: seq<nat>)
    requires Tree(rs) && Entries(rs, entryRegion) && old_ < |rs| && Arrives(rs, old_, offset)
    requires rs[old_].range.start <= offset <= rs[old_].range.end && offset < rs[0].range.end
    ensures region < |rs| && Contains(rs[region].range, offset) && IsTransition(rs, region, offset, next)
    ensures forall o: nat :: offset <= o < next ==> InnermostAt(rs, o, region)
    ensures NoDuplicates(entered) && InEntryOrder(rs, entryRegion, entered)
    ensures forall t: nat :: t in entered <==>
              if offset < rs[old_].range.end then EntersInside(rs, entryRegion, t, offset, old_)
              else EntersAt(rs, entryRegion, t, offset)
    decreases offset >= rs[old_].range.end, if offset >= rs[old_].range.end then old_ else |rs| - old_
  {
    if offset >= rs[old_].range.end {
      var parent := EnclosingAncestor(rs, old_);
      ArrivesAtAncestor(rs, old_, offset);
      region, next, entered := SwitchRegion(rs, entryRegion, parent, offset);
      EntersInsideAncestor(rs, entryRegion, parent, offset);
      return;
    }
    var found, enter, transition := ScanChildren(rs, entryRegion, old_, offset);
    if found.Some? {
      var below;
      ArrivesBelow(rs, old_, offset, found.value);
      region, next, below := SwitchRegion(rs, entryRegion, found.value, offset);
      entered := (if enter.Some? then [enter.value] else []) + below;
      EnteredInside(rs, entryRegion, old_, offset, found.value, enter, below);
    } else {
      NothingEntered(rs, entryRegion, old_, offset, transition);
      forall o: nat | offset <= o < transition ensures InnermostAt(rs, o, old_) {
        QuietUntilTransition(rs, old_, offset, transition, o);
      }
      return old_, transition, [];
    }
  }

  /** Coming from inside an ancestor that goes on, what is entered lies strictly inside it. */
  lemma EntersInsideAncestor(rs: seq<Region>, entryRegion: map<nat, nat>, a: nat, offset: nat)
    requires Tree(rs) && a < |rs| && rs[a].range.start < offset
    ensures forall t: nat :: EntersAt(rs, entryRegion, t, offset) && offset < rs[a].range.end ==>
                               EntersInside(rs, entryRegion, t, offset, a)
  {
    forall t: nat | EntersAt(rs, entryRegion, t, offset) && offset < rs[a].range.end
      ensures EntersInside(rs, entryRegion, t, offset, a)
    {
      var e := entryRegion[t];
      assert e < a ==> Laminar(rs[e].range, rs[a].range);
      assert a < e ==> Laminar(rs[a].range, rs[e].range);
    }
  }

  lemma EnteredInside(rs: seq<Region>, entryRegion: map<nat, nat>, r: nat, offset: nat, c: nat, enter: Option<nat>,
                      below: seq<nat>)
    requires Tree(rs) && r < |rs| && Encloses(rs, r, c) && Contains(rs[c].range, offset)
    requires rs[c].range.start == offset && StrictlyWithin(rs[c].range, rs[r].range)
    requires EnteredAt(rs, entryRegion, c, enter) && NoDuplicates(below) && InEntryOrder(rs, entryRegion, below)
    requires forall t: nat :: t in below <==> EntersInside(rs, entryRegion, t, offset, c)
    ensures var entered := (if enter.Some? then [enter.value] else []) + below;
            && NoDuplicates(entered) && InEntryOrder(rs, entryRegion, entered)
            && forall t: nat :: t in entered <==> EntersInside(rs, entryRegion, t, offset, r)
  {
    var entered := (if enter.Some? then [enter.value] else []) + below;
    EnteredAroundFirst(rs, entryRegion, offset, c, enter, below);
    assert enter.Some? ==> IsEntryOf(rs, entryRegion, enter.value, c) && enter.value !in below;
    forall t: nat ensures t in entered <==> EntersInside(rs, entryRegion, t, offset, r) {
      if EntersInside(rs, entryRegion, t, offset, r) {
        InsideTheOne(rs, r, offset, c, entryRegion[t]);
        SameRangeSameRegion(rs, entryRegion[t], c);
        assert entryRegion[t] == c ==> IsEntryOf(rs, entryRegion, t, c);
      }
    }
  }

  lemma EnteredAroundFirst(rs: seq<Region>, entryRegion: map<nat, nat>, offset: nat, c: nat, enter: Option<nat>,
                           below: seq<nat>)
    requires c < |rs| && rs[c].range.start == offset && EnteredAt(rs, entryRegion, c, enter)
    requires InEntryOrder(rs, entryRegion, below)
    requires forall t: nat :: t in below <==> EntersInside(rs, entryRegion, t, offset, c)
    ensures InEntryOrder(rs, entryRegion, (if enter.Some? then [enter.value] else []) + below)
  {
    if enter.Some? {
      assert IsEntryOf(rs, entryRegion, enter.value, c);
      forall j | 0 <= j < |below|
        ensures Earlier(EntryRange(rs, entryRegion, enter.value), EntryRange(rs, entryRegion, below[j]))
      {
        assert below[j] in below;
      }
    } else {
      assert [] + below == below;
    }
  }

  lemma SameRangeSameRegion(rs: seq<Region>, i: nat, k: nat)
    requires Tree(rs) && i < |rs| && k < |rs|
    ensures rs[i].range == rs[k].range ==> i == k
  {
    if i != k {
      RangesDiffer(rs, i, k);
    }
  }

  lemma NothingEntered(rs: seq<Region>, entryRegion: map<nat, nat>, r: nat, offset: nat, transition: nat)
    requires Tree(rs) && r < |rs| && Contains(rs[r].range, offset)
    requires forall h: nat :: Encloses(rs, r, h) ==> Passed(rs[h], offset, transition)
    ensures forall t: nat :: !EntersInside(rs, entryRegion, t, offset, r)
  {
    forall t: nat ensures !EntersInside(rs, entryRegion, t, offset, r) {
      if EntersInside(rs, entryRegion, t, offset, r) {
        var e := entryRegion[t];
        assert rs[e].range.start < rs[e].range.end;
        var h := DirectlyEnclosed(rs, r, e);
        assert Encloses(rs, r, h);
        assert false;
      }
    }
  }

  // ---------------------------------------------------------------------------
  // The whole walk
  // ---------------------------------------------------------------------------

  /** The offsets of the instructions: increasing from 0 and inside the code. */
  ghost predicate InstructionStarts(starts: seq<nat>, codeSize: nat)
  {
    && starts != [] && starts[0] == 0
    && (forall i, j :: 0 <= i < j < |starts| ==> starts[i] < starts[j])
    && (forall i :: 0 <= i < |starts| ==> starts[i] < codeSize)
  }

  /** Regions start at instructions, and end at instructions or with the code. */
  ghost predicate OnInstructions(rs: seq<Region>, starts: seq<nat>, codeSize: nat)
  {
    forall i :: 0 <= i < |rs| ==>
      rs[i].range.start in starts && (rs[i].range.end in starts || rs[i].range.end == codeSize)
  }

  predicate EnteredBefore(rs: seq<Region>, entryRegion: map<nat, nat>, t: nat, offset: nat)
  {
    && t < |rs| && rs[t].kind == Try && t in entryRegion && entryRegion[t] < |rs|
    && rs[entryRegion[t]].range.start < offset
  }

  ghost predicate EnteredSoFar(rs: seq<Region>, entryRegion: map<nat, nat>, entered: seq<nat>, offset: nat)
  {
    && NoDuplicates(entered) && InEntryOrder(rs, entryRegion, entered)
    && forall t: nat :: t in entered <==> EnteredBefore(rs, entryRegion, t, offset)
  }

  /** The region is the innermost one at all offsets from one to another; at the start it is the root. */
  ghost predicate InnermostFrom(rs: seq<Region>, region: nat, from: nat, next: nat)
  {
    if next == 0 then region == 0 else from < next && forall o: nat :: from <= o < next ==> InnermostAt(rs, o, region)
  }

  lemma ArrivesAtNext(rs: seq<Region>, region: nat, from: nat, next: nat)
    requires Tree(rs) && rs[0].range.start == 0 && InnermostFrom(rs, region, from, next)
    ensures region < |rs| && Arrives(rs, region, next) && rs[region].range.start <= next <= rs[region].range.end
    ensures next > 0 ==> rs[region].range.start < next
  {
    if next > 0 {
      assert InnermostAt(rs, next - 1, region);
      assert forall k :: 0 <= k < |rs| && rs[k].range.start < next < rs[k].range.end ==>
                           Contains(rs[k].range, next - 1);
    }
  }

  /** All that is entered at an offset lies inside the region that goes on there, the root at the start. */
  lemma EntersInsideCurrent(rs: seq<Region>, entryRegion: map<nat, nat>, region: nat, next: nat, t: nat)
    requires Tree(rs) && Entries(rs, entryRegion) && region < |rs| && next < rs[region].range.end
    requires if next == 0 then region == 0 else rs[region].range.start < next
    ensures EntersAt(rs, entryRegion, t, next) ==> EntersInside(rs, entryRegion, t, next, region)
  {
    if next > 0 {
      EntersInsideAncestor(rs, entryRegion, region, next);
    } else if EntersAt(rs, entryRegion, t, next) {
      assert IsEntry(rs, t, entryRegion[t]);
      SameRangeSameRegion(rs, entryRegion[t], 0);
    }
  }

  /** No region starts strictly between two transitions. */
  lemma NoStartBetween(rs: seq<Region>, region: nat, from: nat, next: nat, e: nat)
    requires InnermostFrom(rs, region, from, next) && e < |rs| && rs[e].range.start < rs[e].range.end
    ensures !(from < rs[e].range.start < next)
  {
    var o := rs[e].range.start;
    if from < o < next {
      assert InnermostAt(rs, from, region);
      assert InnermostAt(rs, o, region) && Contains(rs[e].range, o);
      assert false;
    }
  }

  /** At which offset each of the try regions was entered: where its entry starts. */
  ghost predicate OnTime(rs: seq<Region>, entryRegion: map<nat, nat>, entered: seq<nat>, offsets: seq<nat>)
  {
    && |offsets| == |entered|
    && forall i :: 0 <= i < |entered| ==> offsets[i] == EntryRange(rs, entryRegion, entered[i]).start
  }

  /** One transition. */
  method Transition(rs: seq<Region>, entryRegion: map<nat, nat>, current0: nat, next0: nat,
                    entered0: seq<nat>, offsets0: seq<nat>, ghost from: nat)
    returns (current: nat, next: nat, entered: seq<nat>, offsets: seq<nat>)
    requires Tree(rs) && Entries(rs, entryRegion) && rs[0].range.start == 0 && next0 < rs[0].range.end
    requires InnermostFrom(rs, current0, from, next0) && EnteredSoFar(rs, entryRegion, entered0, next0)
    requires OnTime(rs, entryRegion, entered0, offsets0)
    ensures InnermostFrom(rs, current, next0, next) && EnteredSoFar(rs, entryRegion, entered, next)
    ensures OnTime(rs, entryRegion, entered, offsets)
    ensures current < |rs| && IsTransition(rs, current, next0, next)
  {
    ArrivesAtNext(rs, current0, from, next0);
    var new_;
    current, next, new_ := SwitchRegion(rs, entryRegion, current0, next0);
    entered, offsets := entered0 + new_, offsets0 + seq(|new_|, _ => next0);
    forall t: nat ensures t in new_ <==> EntersAt(rs, entryRegion, t, next0) {
      if next0 < rs[current0].range.end {
        EntersInsideCurrent(rs, entryRegion, current0, next0, t);
      }
    }
    EnteredGrows(rs, entryRegion, current, next0, next, entered0, new_);
    assert forall j :: 0 <= j < |new_| ==> new_[j] in new_;
  }

  lemma EnteredGrows(rs: seq<Region>, entryRegion: map<nat, nat>, region: nat, from: nat, next: nat,
                     before: seq<nat>, new_: seq<nat>)
    requires Tree(rs) && InnermostFrom(rs, region, from, next) && from < next
    requires EnteredSoFar(rs, entryRegion, before, from) && NoDuplicates(new_) && InEntryOrder(rs, entryRegion, new_)
    requires forall t: nat :: t in new_ <==> EntersAt(rs, entryRegion, t, from)
    ensures EnteredSoFar(rs, entryRegion, before + new_, next)
  {
    forall t: nat ensures t in before + new_ <==> EnteredBefore(rs, entryRegion, t, next) {
      if EnteredBefore(rs, entryRegion, t, next) {
        NoStartBetween(rs, region, from, next, entryRegion[t]);
      }
    }
    forall i, j | 0 <= i < |before| && 0 <= j < |new_|
      ensures before[i] != new_[j]
      ensures Earlier(EntryRange(rs, entryRegion, before[i]), EntryRange(rs, entryRegion, new_[j]))
    {
      assert before[i] in before && new_[j] in new_;
    }
    OrderOfSum(rs, entryRegion, before, new_);
  }

  lemma OrderOfSum(rs: seq<Region>, entryRegion: map<nat, nat>, a: seq<nat>, b: seq<nat>)
    requires InEntryOrder(rs, entryRegion, a) && InEntryOrder(rs, entryRegion, b)
    requires forall i, j :: 0 <= i < |a| && 0 <= j < |b| ==>
               Earlier(EntryRange(rs, entryRegion, a[i]), EntryRange(rs, entryRegion, b[j]))
    ensures InEntryOrder(rs, entryRegion, a + b)
  {
  }

  /** The next instruction is not past the next transition. */
  lemma TransitionIsNotMissed(rs: seq<Region>, starts: seq<nat>, region: nat, offset: nat, next: nat, k: nat)
    requires Tree(rs) && InstructionStarts(starts, rs[0].range.end) && OnInstructions(rs, starts, rs[0].range.end)
    requires region < |rs| && IsTransition(rs, region, offset, next) && 0 < k < |starts| && starts[k - 1] < next
    ensures starts[k] <= next
  {
    if next in starts {
      var m :| 0 <= m < |starts| && starts[m] == next;
      LaterStart(starts, rs[0].range.end, k - 1, m);
      assert k < m ==> starts[k] < starts[m];
    }
  }

  lemma LaterStart(starts: seq<nat>, codeSize: nat, i: nat, j: nat)
    requires InstructionStarts(starts, codeSize) && i < |starts| && j < |starts|
    ensures starts[i] < starts[j] ==> i < j
  {
    assert j < i ==> starts[j] < starts[i];
  }

  ghost predicate Walkable(rs: seq<Region>, entryRegion: map<nat, nat>, starts: seq<nat>)
  {
    && Tree(rs) && Entries(rs, entryRegion) && rs[0].range.start == 0
    && InstructionStarts(starts, rs[0].range.end) && OnInstructions(rs, starts, rs[0].range.end)
  }

  ghost predicate AllInnermost(rs: seq<Region>, starts: seq<nat>, regionAt: seq<nat>)
    requires |regionAt| <= |starts|
  {
    forall k :: 0 <= k < |regionAt| ==> InnermostAt(rs, starts[k], regionAt[k])
  }

  lemma InnermostSnoc(rs: seq<Region>, starts: seq<nat>, regionAt: seq<nat>, region: nat)
    requires |regionAt| < |starts| && AllInnermost(rs, starts, regionAt) && InnermostAt(rs, starts[|regionAt|], region)
    ensures AllInnermost(rs, starts, regionAt + [region])
  {
  }

  /** Region q is reached from region t by parent links. */
  predicate Above(rs: seq<Region>, q: nat, t: nat)
    requires Linked(rs)
    decreases t
  {
    0 < t < |rs| && (rs[t].parent == q || Above(rs, q, rs[t].parent))
  }

  /** No region comes before one above it. */
  ghost predicate AboveFirst(rs: seq<Region>, entered: seq<nat>)
    requires Linked(rs)
  {
    forall i, j :: 0 <= i < |entered| && 0 <= j < |entered| && Above(rs, entered[i], entered[j]) ==> i < j
  }

  lemma HandlersApart(rs: seq<Region>, t: nat, g: nat, h: nat)
    requires Tree(rs) && IsHandlerOf(rs, t, g) && IsHandlerOf(rs, t, h) && 0 < g && 0 < h && g != h
    ensures Apart(rs[g].range, rs[h].range)
  {
    assert EnclosingAncestor(rs, g) == EnclosingAncestor(rs, h);
    assert EnclosedBy(rs, g, EnclosingAncestor(rs, g)) && EnclosedBy(rs, h, EnclosingAncestor(rs, h));
    assert g < h ==> Laminar(rs[g].range, rs[h].range);
    assert h < g ==> Laminar(rs[h].range, rs[g].range);
  }

  /** The entry of a try region starts before its other blocks. */
  lemma EntryStartsFirst(rs: seq<Region>, entryRegion: map<nat, nat>, q: nat, b: nat)
    requires Tree(rs) && Entries(rs, entryRegion) && q < |rs| && rs[q].kind == Try
    requires b == q || (b > 0 && IsHandlerOf(rs, q, b))
    ensures q in entryRegion && entryRegion[q] < |rs|
    ensures entryRegion[q] == b || rs[entryRegion[q]].range.start < rs[b].range.start
  {
    var e := entryRegion[q];
    assert IsEntry(rs, q, e);
    if e != b {
      if e == q {
        HandlerApart(rs, q, b);
      } else if b == q {
        HandlerApart(rs, q, e);
      } else {
        HandlersApart(rs, q, e, b);
      }
    }
  }

  /** A try region inside a try region, or inside one of its handlers, is entered later. */
  lemma EnteredLater(rs: seq<Region>, entryRegion: map<nat, nat>, q: nat, b: nat, t: nat)
    requires Tree(rs) && Entries(rs, entryRegion) && q < |rs| && rs[q].kind == Try
    requires b == q || (b > 0 && IsHandlerOf(rs, q, b))
    requires 0 < t < |rs| && rs[t].kind == Try && rs[t].parent == b
    ensures Earlier(EntryRange(rs, entryRegion, q), EntryRange(rs, entryRegion, t))
  {
    var e := entryRegion[t];
    assert IsEntry(rs, t, e);
    assert EnclosedBy(rs, e, EnclosingAncestor(rs, e));
    EntryStartsFirst(rs, entryRegion, q, b);
  }

  lemma {:induction false} AboveEntersEarlier(rs: seq<Region>, entryRegion: map<nat, nat>, q: nat, t: nat)
    requires Tree(rs) && Entries(rs, entryRegion) && q < |rs| && rs[q].kind == Try
    requires t < |rs| && rs[t].kind == Try && Above(rs, q, t)
    ensures Earlier(EntryRange(rs, entryRegion, q), EntryRange(rs, entryRegion, t))
    decreases t
  {
    var b := rs[t].parent;
    var p := if rs[b].kind == Try then b else rs[b].parent;
    assert b > 0;
    EnteredLater(rs, entryRegion, p, b, t);
    if p != q {
      AboveEntersEarlier(rs, entryRegion, q, p);
    }
  }

  lemma OrderIsAboveFirst(rs: seq<Region>, entryRegion: map<nat, nat>, entered: seq<nat>)
    requires Tree(rs) && Entries(rs, entryRegion) && InEntryOrder(rs, entryRegion, entered)
    requires forall t: nat :: t in entered <==> t < |rs| && rs[t].kind == Try
    ensures AboveFirst(rs, entered)
  {
    forall i, j | 0 <= i < |entered| && 0 <= j < |entered| && Above(rs, entered[i], entered[j]) ensures i < j {
      assert entered[i] in entered && entered[j] in entered;
      AboveEntersEarlier(rs, entryRegion, entered[i], entered[j]);
    }
  }

  /** The try regions entered along the code: every one once, where the first of it and its handlers starts,
      and none before those that it lies in or whose handlers it lies in. */
  ghost predicate EnteredRight(rs: seq<Region>, entryRegion: map<nat, nat>, entered: seq<nat>, offsets: seq<nat>)
    requires Linked(rs)
  {
    && NoDuplicates(entered) && (forall t: nat :: t in entered <==> t < |rs| && rs[t].kind == Try)
    && OnTime(rs, entryRegion, entered, offsets) && InEntryOrder(rs, entryRegion, entered) && AboveFirst(rs, entered)
  }

  /** Where the walk stands: the current region and the next transition, the regions of the instructions
      behind, and the try regions entered with the offsets at which they were. */
  datatype Walk = Walk(current: nat, next: nat, regionAt: seq<nat>, entered: seq<nat>, offsets: seq<nat>)

  /** What is known between two instructions. */
  ghost predicate Following(rs: seq<Region>, entryRegion: map<nat, nat>, starts: seq<nat>, w: Walk, from: nat)
    requires Linked(rs)
  {
    var k := |w.regionAt|;
    && k <= |starts| && AllInnermost(rs, starts, w.regionAt) && OnTime(rs, entryRegion, w.entered, w.offsets)
    && InnermostFrom(rs, w.current, from, w.next) && EnteredSoFar(rs, entryRegion, w.entered, w.next)
    && (if k == 0 then w.next == 0 else from <= starts[k - 1] < w.next)
    && (w.next > 0 ==> w.current < |rs| && IsTransition(rs, w.current, from, w.next))
  }

  /** Along the code the current region is the innermost one at every instruction, and try regions are entered
      as they should be. */
  method FollowRegions(rs: seq<Region>, entryRegion: map<nat, nat>, starts: seq<nat>) returns (w: Walk)
    requires Walkable(rs, entryRegion, starts)
    ensures |w.regionAt| == |starts| && AllInnermost(rs, starts, w.regionAt)
    ensures EnteredRight(rs, entryRegion, w.entered, w.offsets)
  {
    w := Walk(0, 0, [], [], []);
    ghost var from: nat := 0;
    for k := 0 to |starts|
      invariant |w.regionAt| == k && Following(rs, entryRegion, starts, w, from)
    {
      w, from := AtInstruction(rs, entryRegion, starts, w, from);
    }
    AllEnteredRight(rs, entryRegion, starts, w, from);
  }

  lemma AllEnteredRight(rs: seq<Region>, entryRegion: map<nat, nat>, starts: seq<nat>, w: Walk, from: nat)
    requires Walkable(rs, entryRegion, starts) && Following(rs, entryRegion, starts, w, from)
    requires |w.regionAt| == |starts|
    ensures EnteredRight(rs, entryRegion, w.entered, w.offsets)
  {
    AllEntered(rs, entryRegion, starts, w.entered, w.next);
    OrderIsAboveFirst(rs, entryRegion, w.entered);
  }

  /** One instruction. */
  method AtInstruction(rs: seq<Region>, entryRegion: map<nat, nat>, starts: seq<nat>, w: Walk, ghost from: nat)
    returns (w': Walk, ghost from': nat)
    requires Walkable(rs, entryRegion, starts) && Following(rs, entryRegion, starts, w, from)
    requires |w.regionAt| < |starts|
    ensures Following(rs, entryRegion, starts, w', from') && |w'.regionAt| == |w.regionAt| + 1
  {
    var current, next, entered, offsets;
    current, next, entered, offsets, from' := SwitchAtTransition(rs, entryRegion, starts, w, from);
    InnermostSnoc(rs, starts, w.regionAt, current);
    w' := Walk(current, next, w.regionAt + [current], entered, offsets);
  }

  /** The region changes only at the transition. */
  method SwitchAtTransition(rs: seq<Region>, entryRegion: map<nat, nat>, starts: seq<nat>, w: Walk, ghost from: nat)
    returns (current: nat, next: nat, entered: seq<nat>, offsets: seq<nat>, ghost from': nat)
    requires Walkable(rs, entryRegion, starts) && Following(rs, entryRegion, starts, w, from)
    requires |w.regionAt| < |starts|
    ensures OnTime(rs, entryRegion, entered, offsets) && EnteredSoFar(rs, entryRegion, entered, next)
    ensures from' <= starts[|w.regionAt|] < next && InnermostFrom(rs, current, from', next)
    ensures current < |rs| && IsTransition(rs, current, from', next)
    ensures InnermostAt(rs, starts[|w.regionAt|], current)
  {
    var k := |w.regionAt|;
    current, next, entered, offsets, from' := w.current, w.next, w.entered, w.offsets, from;
    if k > 0 {
      TransitionIsNotMissed(rs, starts, current, from, next, k);
    }
    if starts[k] == next {
      current, next, entered, offsets := Transition(rs, entryRegion, current, next, entered, offsets, from);
      from' := starts[k];
    }
  }

  lemma AllEntered(rs: seq<Region>, entryRegion: map<nat, nat>, starts: seq<nat>, entered: seq<nat>, next: nat)
    requires Walkable(rs, entryRegion, starts)
    requires EnteredSoFar(rs, entryRegion, entered, next) && starts[|starts| - 1] < next
    ensures forall t: nat :: t in entered <==> t < |rs| && rs[t].kind == Try
  {
    forall t: nat | t < |rs| && rs[t].kind == Try ensures EnteredBefore(rs, entryRegion, t, next) {
      assert IsEntry(rs, t, entryRegion[t]);
      LastStart(starts, rs[0].range.end, rs[entryRegion[t]].range.start);
    }
  }

  lemma LastStart(starts: seq<nat>, codeSize: nat, o: nat)
    requires InstructionStarts(starts, codeSize) && o in starts
    ensures o <= starts[|starts| - 1]
  {
    var m :| 0 <= m < |starts| && starts[m] == o;
    assert m < |starts| - 1 ==> starts[m] < starts[|starts| - 1];
  }

  // ---------------------------------------------------------------------------
  // From clauses to regions of instructions
  // ---------------------------------------------------------------------------

  predicate RangeOnInstructions(r: Range, starts: seq<nat>, codeSize: nat)
  {
    r.start in starts && (r.end in starts || r.end == codeSize)
  }

  /** All blocks of all clauses start at instructions, and end at instructions or with the code. */
  ghost predicate ClausesOnInstructions(clauses: seq<Clause>, starts: seq<nat>, codeSize: nat)
  {
    forall i :: 0 <= i < |clauses| ==>
      && RangeOnInstructions(clauses[i].Try(), starts, codeSize)
      && RangeOnInstructions(clauses[i].Handler(), starts, codeSize)
      && RangeOnInstructions(clauses[i].First(), starts, codeSize)
  }

  lemma RegionsOnInstructions(rs: seq<Region>, clauses: seq<Clause>, starts: seq<nat>, codeSize: nat)
    requires TreeOf(rs, clauses, codeSize) && ClausesOnInstructions(clauses, starts, codeSize)
    requires InstructionStarts(starts, codeSize)
    ensures OnInstructions(rs, starts, codeSize)
  {
    forall i | 0 <= i < |rs| ensures RangeOnInstructions(rs[i].range, starts, codeSize) {
      if i > 0 {
        assert HasOrigin(rs[i], clauses);
        var j :| 0 <= j < |clauses| && IsBlockOf(rs[i], clauses[j]);
      }
    }
  }

  /** From the clauses of a method to the region of each of its instructions. */
  method RegionsOfInstructions(clauses: seq<Clause>, codeSize: nat, starts: seq<nat>)
    returns (tree: RegionTree?, w: Walk)
    requires Rules(clauses, codeSize) && FiltersSheltered(clauses, |clauses|) && |clauses| < 0x1_0000
    requires InstructionStarts(starts, codeSize) && ClausesOnInstructions(clauses, starts, codeSize)
    ensures tree == null <==> clauses == []
    ensures tree != null ==>
              && Built(tree.regions, tree.entryRegion, clauses, codeSize)
              && |w.regionAt| == |starts| && AllInnermost(tree.regions, starts, w.regionAt)
              && EnteredRight(tree.regions, tree.entryRegion, w.entered, w.offsets)
  {
    w := Walk(0, 0, [], [], []);
    tree := CreateRegionTree(clauses, codeSize);
    if tree != null {
      RegionsOnInstructions(tree.regions, clauses, starts, codeSize);
      w := FollowRegions(tree.regions, tree.entryRegion, starts);
    }
  }
}
