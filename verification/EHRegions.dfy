/** The tree of exception regions: built from clauses, outer ones first, and walked along the code. Regions
    stand in the order in which they are made and are known by their position. */
module EHRegions {
  import opened EHClauses
  import opened Options

  datatype Kind = Root | Try | Fault | Finally | Filter | MExcept | MCatch

  /** The parent of a handler or filter is its try region; the latest child comes first. */
  datatype Region = Region(kind: Kind, parent: nat, range: Range, children: seq<nat>)

  /** Handlers and filters lie outside the range of their parent. */
  predicate OutsideParent(kind: Kind)
  {
    kind != Root && kind != Try
  }

  ghost predicate Linked(rs: seq<Region>)
  {
    && rs != [] && rs[0].kind == Root && rs[0].parent == 0
    && (forall i :: 0 < i < |rs| ==> rs[i].kind != Root && rs[i].parent < i)
    && (forall i :: 0 < i < |rs| && OutsideParent(rs[i].kind) ==> rs[rs[i].parent].kind == Try)
    && (forall i, c: nat :: 0 <= i < |rs| ==> (c in rs[i].children <==> IsChild(rs, i, c)))
  }

  predicate IsChild(rs: seq<Region>, i: nat, c: nat)
  {
    0 < c < |rs| && rs[c].parent == i
  }

  /** The region in whose code a region lies: for a handler or filter, the parent of its try region. */
  function EnclosingAncestor(rs: seq<Region>, i: nat): (p: nat)
    requires Linked(rs) && 0 < i < |rs|
    ensures p < i
  {
    if OutsideParent(rs[i].kind) then rs[rs[i].parent].parent else rs[i].parent
  }

  /** Region k is the innermost one around a range: all others around it are around region k. */
  ghost predicate Innermost(rs: seq<Region>, r: Range, k: nat)
  {
    && k < |rs| && Within(r, rs[k].range)
    && forall i :: 0 <= i < |rs| && Within(r, rs[i].range) ==> Within(rs[k].range, rs[i].range)
  }

  /** Regions are apart or one lies in the other, and the enclosing ancestor of a region is the innermost
      of all the regions around it. */
  ghost predicate ProperlyNested(rs: seq<Region>)
    requires Linked(rs)
  {
    && (forall i :: 0 <= i < |rs| ==> rs[i].range.start < rs[i].range.end && Within(rs[i].range, rs[0].range))
    && (forall i, j :: 0 <= i < j < |rs| ==> Laminar(rs[i].range, rs[j].range))
    && (forall i :: 0 < i < |rs| ==> EnclosedBy(rs, i, EnclosingAncestor(rs, i)))
  }

  predicate Laminar(x: Range, y: Range)
  {
    Apart(x, y) || StrictlyWithin(x, y) || StrictlyWithin(y, x)
  }

  /** Region p is the innermost of the other regions around region i. */
  ghost predicate EnclosedBy(rs: seq<Region>, i: nat, p: nat)
    requires i < |rs|
  {
    && p < |rs| && StrictlyWithin(rs[i].range, rs[p].range)
    && forall k :: 0 <= k < |rs| && k != i && Within(rs[i].range, rs[k].range) ==> Within(rs[p].range, rs[k].range)
  }

  ghost predicate Tree(rs: seq<Region>)
  {
    Linked(rs) && ProperlyNested(rs)
  }

  // ---------------------------------------------------------------------------
  // Going down
  // ---------------------------------------------------------------------------

  lemma RootIsOutermost(rs: seq<Region>, r: nat)
    requires Tree(rs) && r < |rs|
    ensures Within(rs[0].range, rs[r].range) ==> r == 0
  {
    assert r > 0 ==> Laminar(rs[0].range, rs[r].range);
  }

  /** On the way from a region down to another inside it lies a region that it directly encloses. */
  lemma {:induction false} DirectlyEnclosed(rs: seq<Region>, r: nat, k: nat) returns (h: nat)
    requires Tree(rs) && r < |rs| && k < |rs| && k != r && Within(rs[k].range, rs[r].range)
    ensures 0 < h < |rs| && EnclosingAncestor(rs, h) == r && Within(rs[k].range, rs[h].range)
    decreases k
  {
    RootIsOutermost(rs, r);
    var p := EnclosingAncestor(rs, k);
    assert EnclosedBy(rs, k, p);
    if p == r {
      h := k;
    } else {
      h := DirectlyEnclosed(rs, r, p);
    }
  }

  /** A region around a range, none of whose directly enclosed regions is around it, is the innermost. */
  lemma NoneInsideIsInnermost(rs: seq<Region>, r: Range, k: nat)
    requires Tree(rs) && k < |rs| && Within(r, rs[k].range) && r.start < r.end
    requires forall h :: 0 < h < |rs| && EnclosingAncestor(rs, h) == k ==> !Within(r, rs[h].range)
    ensures Innermost(rs, r, k)
  {
    forall i | 0 <= i < |rs| && Within(r, rs[i].range) ensures Within(rs[k].range, rs[i].range) {
      OverlapNests(rs, r, i, k);
      if i != k && Within(rs[i].range, rs[k].range) {
        var h := DirectlyEnclosed(rs, k, i);
        assert false;
      }
    }
  }

  lemma OverlapNests(rs: seq<Region>, r: Range, i: nat, k: nat)
    requires Tree(rs) && i < |rs| && k < |rs|
    requires r.start < r.end && Within(r, rs[i].range) && Within(r, rs[k].range)
    ensures Within(rs[i].range, rs[k].range) || Within(rs[k].range, rs[i].range)
  {
    assert i < k ==> Laminar(rs[i].range, rs[k].range);
    assert k < i ==> Laminar(rs[k].range, rs[i].range);
  }

  /** Only try regions and the handlers and filters of try regions are directly enclosed. */
  lemma DirectlyEnclosedIsNear(rs: seq<Region>, k: nat, h: nat)
    requires Linked(rs) && k < |rs| && 0 < h < |rs| && EnclosingAncestor(rs, h) == k
    ensures if OutsideParent(rs[h].kind) then IsHandlerOfChild(rs, k, rs[h].parent, h)
            else rs[h].kind == Try && h in rs[k].children
  {
    assert IsChild(rs, rs[h].parent, h);
    if OutsideParent(rs[h].kind) {
      assert IsChild(rs, k, rs[h].parent);
    }
  }

  lemma ChildrenAreChildren(rs: seq<Region>, i: nat)
    requires Linked(rs) && i < |rs|
    ensures forall j :: 0 <= j < |rs[i].children| ==> IsChild(rs, i, rs[i].children[j])
  {
    forall j | 0 <= j < |rs[i].children| ensures IsChild(rs, i, rs[i].children[j]) {
      assert rs[i].children[j] in rs[i].children;
    }
  }

  predicate IsHandlerOfChild(rs: seq<Region>, k: nat, t: nat, h: nat)
  {
    && k < |rs| && t < |rs| && h < |rs|
    && t in rs[k].children && rs[t].kind == Try && h in rs[t].children && OutsideParent(rs[h].kind)
  }

  /** The handler or filter of a try region that encloses a range, if any. */
  method FindEnclosingHandler(rs: seq<Region>, t: nat, r: Range) returns (found: Option<nat>)
    requires Linked(rs) && t < |rs|
    ensures match found
            case Some(h) => h in rs[t].children && OutsideParent(rs[h].kind) && Within(r, rs[h].range)
            case None => forall h :: h in rs[t].children && OutsideParent(rs[h].kind) ==> !Within(r, rs[h].range)
  {
    var list := rs[t].children;
    ChildrenAreChildren(rs, t);
    for i := 0 to |list|
      invariant forall j :: 0 <= j < i && OutsideParent(rs[list[j]].kind) ==> !Within(r, rs[list[j]].range)
    {
      var handlerChild := list[i];
      if rs[handlerChild].kind != Try && Within(r, rs[handlerChild].range) {
        return Some(handlerChild);
      }
    }
    return None;
  }

  /** The region nearest to the leaves that contains a range; in a properly nested tree the innermost one. */
  method FindLowestEnclosingRegion(rs: seq<Region>, k: nat, r: Range) returns (found: nat)
    requires Linked(rs) && k < |rs| && r.start < r.end
    ensures found < |rs|
    ensures ProperlyNested(rs) && Within(r, rs[k].range) ==> Innermost(rs, r, found)
    decreases |rs| - k
  {
    var retVal: Option<nat> := None;
    var list := rs[k].children;
    ChildrenAreChildren(rs, k);
    for i := 0 to |list|
      invariant retVal.Some? ==> retVal.value < |rs| && (ProperlyNested(rs) ==> Innermost(rs, r, retVal.value))
      invariant retVal.None? ==> forall j :: 0 <= j < i ==> !EnclosesThrough(rs, list[j], r)
    {
      var tryChild := list[i];
      if rs[tryChild].kind == Try && Within(r, rs[tryChild].range) {
        var lowest := FindLowestEnclosingRegion(rs, tryChild, r);
        retVal := Some(lowest);
        break;
      } else if rs[tryChild].kind == Try {
        var handler := FindEnclosingHandler(rs, tryChild, r);
        if handler.Some? {
          assert IsChild(rs, tryChild, handler.value);
          var lowest := FindLowestEnclosingRegion(rs, handler.value, r);
          retVal := Some(lowest);
        }
      }
    }
    if retVal.None? {
      if ProperlyNested(rs) && Within(r, rs[k].range) {
        NoneEnclosesThrough(rs, k, r);
      }
      return k;
    }
    return retVal.value;
  }

  /** A child is a try region that contains the range, or has a handler or filter that does. */
  ghost predicate EnclosesThrough(rs: seq<Region>, c: nat, r: Range)
    requires c < |rs|
  {
    rs[c].kind == Try &&
      (Within(r, rs[c].range) ||
       exists h :: h in rs[c].children && h < |rs| && OutsideParent(rs[h].kind) && Within(r, rs[h].range))
  }

  lemma NoneEnclosesThrough(rs: seq<Region>, k: nat, r: Range)
    requires Tree(rs) && k < |rs| && r.start < r.end && Within(r, rs[k].range)
    requires forall j :: 0 <= j < |rs[k].children| ==>
               rs[k].children[j] < |rs| && !EnclosesThrough(rs, rs[k].children[j], r)
    ensures Innermost(rs, r, k)
  {
    forall h | 0 < h < |rs| && EnclosingAncestor(rs, h) == k ensures !Within(r, rs[h].range) {
      DirectlyEnclosedIsNear(rs, k, h);
      var c := if OutsideParent(rs[h].kind) then rs[h].parent else h;
      var j :| 0 <= j < |rs[k].children| && rs[k].children[j] == c;
      assert !EnclosesThrough(rs, rs[k].children[j], r);
    }
    NoneInsideIsInnermost(rs, r, k);
  }

  // ---------------------------------------------------------------------------
  // Growing
  // ---------------------------------------------------------------------------

  /** A new region, pushed on the front of its parent's list. */
  function Push(rs: seq<Region>, kind: Kind, parent: nat, range: Range): seq<Region>
    requires parent < |rs|
  {
    rs[parent := rs[parent].(children := [|rs|] + rs[parent].children)] + [Region(kind, parent, range, [])]
  }

  /** Old regions keep everything but their children. */
  ghost predicate Extends(rs: seq<Region>, rs': seq<Region>)
  {
    && |rs| <= |rs'|
    && forall i :: 0 <= i < |rs| ==>
         rs'[i].kind == rs[i].kind && rs'[i].parent == rs[i].parent && rs'[i].range == rs[i].range
  }

  lemma PushLinked(rs: seq<Region>, kind: Kind, parent: nat, range: Range)
    requires Linked(rs) && parent < |rs| && kind != Root && (OutsideParent(kind) ==> rs[parent].kind == Try)
    ensures Linked(Push(rs, kind, parent, range)) && Extends(rs, Push(rs, kind, parent, range))
  {
    var rs', n := Push(rs, kind, parent, range), |rs|;
    assert Extends(rs, rs');
    forall i, c: nat | 0 <= i < |rs'| ensures c in rs'[i].children <==> IsChild(rs', i, c) {
      if i < n {
        assert c in rs[i].children <==> IsChild(rs, i, c);
      }
    }
  }

  /** The range of a new region: apart from each old one or strictly inside it. */
  ghost predicate FitsIn(rs: seq<Region>, range: Range)
  {
    && range.start < range.end
    && forall i :: 0 <= i < |rs| ==> Apart(range, rs[i].range) || StrictlyWithin(range, rs[i].range)
  }

  /** A new region whose enclosing ancestor is the innermost region around it keeps the nesting. */
  lemma PushKeepsTree(rs: seq<Region>, kind: Kind, parent: nat, range: Range)
    requires Tree(rs) && parent < |rs| && kind != Root && (OutsideParent(kind) ==> rs[parent].kind == Try)
    requires FitsIn(rs, range)
    requires Innermost(rs, range, if OutsideParent(kind) then rs[parent].parent else parent)
    ensures Tree(Push(rs, kind, parent, range))
  {
    var rs', n := Push(rs, kind, parent, range), |rs|;
    PushLinked(rs, kind, parent, range);
    forall i | 0 < i < |rs'| ensures EnclosedBy(rs', i, EnclosingAncestor(rs', i)) {
      if i < n {
        assert EnclosedBy(rs, i, EnclosingAncestor(rs, i));
        EnclosedStays(rs, rs', range, i, EnclosingAncestor(rs, i));
      }
    }
    PushLaminar(rs, rs', range);
  }

  lemma EnclosedStays(rs: seq<Region>, rs': seq<Region>, range: Range, i: nat, p: nat)
    requires Extends(rs, rs') && |rs'| == |rs| + 1 && rs'[|rs|].range == range && FitsIn(rs, range)
    requires i < |rs| && EnclosedBy(rs, i, p) && rs[i].range.start < rs[i].range.end
    ensures EnclosedBy(rs', i, p)
  {
    assert Apart(range, rs[i].range) || StrictlyWithin(range, rs[i].range);
  }

  lemma PushLaminar(rs: seq<Region>, rs': seq<Region>, range: Range)
    requires Tree(rs) && Extends(rs, rs') && |rs'| == |rs| + 1 && rs'[|rs|].range == range && FitsIn(rs, range)
    ensures forall i, j :: 0 <= i < j < |rs'| ==> Laminar(rs'[i].range, rs'[j].range)
  {
    forall i, j | 0 <= i < j < |rs'| ensures Laminar(rs'[i].range, rs'[j].range) {
      if j < |rs| {
        assert Laminar(rs[i].range, rs[j].range);
      }
    }
  }

  // ---------------------------------------------------------------------------
  // Clauses and regions
  // ---------------------------------------------------------------------------

  function HandlerKind(c: Clause): Kind
  {
    match c.kind
    case FilterAt(_) => MExcept
    case Finally => Kind.Finally
    case Fault => Kind.Fault
    case Catch => MCatch
  }

  /** The region is one of the blocks of the clause. */
  predicate IsBlockOf(region: Region, c: Clause)
  {
    || (region.kind == Try && region.range == c.Try())
    || (region.kind == HandlerKind(c) && region.range == c.Handler())
    || (c.kind.FilterAt? && region.kind == Filter && region.range == c.First())
  }

  /** Every region but the root is a block of one of the clauses. */
  ghost predicate Originated(rs: seq<Region>, clauses: seq<Clause>)
  {
    forall i :: 0 < i < |rs| ==> HasOrigin(rs[i], clauses)
  }

  ghost predicate HasOrigin(region: Region, clauses: seq<Clause>)
  {
    exists j :: 0 <= j < |clauses| && IsBlockOf(region, clauses[j])
  }

  /** A clause's try region with its handler region below, and its filter region if it has a filter. */
  predicate ClauseAt(rs: seq<Region>, c: Clause, t: nat, h: nat, f: nat)
  {
    && t < |rs| && rs[t].kind == Try && rs[t].range == c.Try()
    && h < |rs| && rs[h].kind == HandlerKind(c) && rs[h].range == c.Handler() && rs[h].parent == t
    && (c.kind.FilterAt? ==> f < |rs| && rs[f].kind == Filter && rs[f].range == c.First() && rs[f].parent == t)
  }

  ghost predicate ClauseIn(rs: seq<Region>, c: Clause)
  {
    exists t, h, f :: ClauseAt(rs, c, t, h, f)
  }

  ghost predicate Represented(rs: seq<Region>, clauses: seq<Clause>)
  {
    forall j :: 0 <= j < |clauses| ==> ClauseIn(rs, clauses[j])
  }

  /** The tree of some clauses: properly nested, with the regions of the clauses and no others. */
  ghost predicate TreeOf(rs: seq<Region>, clauses: seq<Clause>, codeSize: nat)
  {
    Tree(rs) && rs[0].range == Range(0, codeSize) && Originated(rs, clauses) && Represented(rs, clauses)
  }

  /** How a clause lies to a range: in it, clear of it, or with the range as its try block. */
  predicate LiesTo(c: Clause, r: Range)
  {
    c.Inside(r) || c.Clear(r) || r == c.Try()
  }

  lemma LiesToBlock(c: Clause, d: Clause, region: Region, codeSize: nat)
    requires c.Valid(codeSize) && d.Valid(codeSize) && MayPrecede(c, d) && IsBlockOf(region, d)
    ensures LiesTo(c, region.range) && (region.range == c.Try() ==> region.kind == Try)
  {
  }

  /** A clause lies well to all regions, and its try block is the range of no region that is not a try region. */
  ghost predicate LiesWell(c: Clause, rs: seq<Region>)
  {
    forall i :: 0 <= i < |rs| ==> LiesTo(c, rs[i].range) && (rs[i].range == c.Try() ==> rs[i].kind == Try)
  }

  /** A clause that may precede all the others lies well to all regions. */
  lemma LiesToAll(rs: seq<Region>, clauses: seq<Clause>, codeSize: nat, c: Clause)
    requires TreeOf(rs, clauses, codeSize) && c.Valid(codeSize) && MayComeBefore(c, clauses, codeSize)
    ensures LiesWell(c, rs)
  {
    forall i | 0 <= i < |rs| ensures LiesTo(c, rs[i].range) && (rs[i].range == c.Try() ==> rs[i].kind == Try) {
      if i > 0 {
        assert HasOrigin(rs[i], clauses);
        var j :| 0 <= j < |clauses| && IsBlockOf(rs[i], clauses[j]);
        LiesToBlock(c, clauses[j], rs[i], codeSize);
      }
    }
  }

  /** The new try region of a clause, below the innermost region around its try block. */
  lemma NewTryRegion(rs: seq<Region>, c: Clause, codeSize: nat, e: nat)
    requires Tree(rs) && c.Valid(codeSize) && LiesWell(c, rs) && Innermost(rs, c.Try(), e)
    requires !(rs[e].kind == Try && rs[e].range == c.Try())
    ensures Tree(Push(rs, Try, e, c.Try())) && Extends(rs, Push(rs, Try, e, c.Try()))
    ensures LiesWell(c, Push(rs, Try, e, c.Try()))
  {
    forall i | 0 <= i < |rs| ensures Apart(c.Try(), rs[i].range) || StrictlyWithin(c.Try(), rs[i].range) {
      assert LiesTo(c, rs[i].range);
    }
    PushKeepsTree(rs, Try, e, c.Try());
    PushLinked(rs, Try, e, c.Try());
  }

  /** The regions around a handler or filter of a clause are those strictly around its try region. */
  lemma AroundHandler(rs: seq<Region>, c: Clause, codeSize: nat, t: nat, range: Range)
    requires Tree(rs) && c.Valid(codeSize) && LiesWell(c, rs) && 0 < t < |rs|
    requires rs[t].kind == Try && rs[t].range == c.Try() && (range == c.Handler() || range == c.First())
    ensures FitsIn(rs, range) && Innermost(rs, range, rs[t].parent)
  {
    var p := EnclosingAncestor(rs, t);
    assert EnclosedBy(rs, t, p);
    assert LiesTo(c, rs[p].range);
    forall i | 0 <= i < |rs|
      ensures Apart(range, rs[i].range) || StrictlyWithin(range, rs[i].range)
      ensures Within(range, rs[i].range) ==> Within(rs[p].range, rs[i].range)
    {
      assert LiesTo(c, rs[i].range);
    }
  }

  /** The handler region of a clause, and before it in its parent's list the filter region if there is a filter. */
  function WithHandler(rs: seq<Region>, c: Clause, t: nat): seq<Region>
    requires t < |rs|
  {
    var rs' := Push(rs, HandlerKind(c), t, c.Handler());
    if c.kind.FilterAt? then Push(rs', Filter, t, c.First()) else rs'
  }

  lemma WithHandlerLinked(rs: seq<Region>, c: Clause, t: nat)
    requires Linked(rs) && t < |rs| && rs[t].kind == Try && rs[t].range == c.Try()
    ensures Linked(WithHandler(rs, c, t)) && Extends(rs, WithHandler(rs, c, t))
    ensures ClauseAt(WithHandler(rs, c, t), c, t, |rs|, |rs| + 1)
  {
    var rs' := Push(rs, HandlerKind(c), t, c.Handler());
    PushLinked(rs, HandlerKind(c), t, c.Handler());
    if c.kind.FilterAt? {
      PushLinked(rs', Filter, t, c.First());
    }
  }

  lemma WithHandlerKeepsTree(rs: seq<Region>, c: Clause, codeSize: nat, t: nat)
    requires Tree(rs) && c.Valid(codeSize) && LiesWell(c, rs) && 0 < t < |rs|
    requires rs[t].kind == Try && rs[t].range == c.Try()
    ensures Tree(WithHandler(rs, c, t))
  {
    var rs' := Push(rs, HandlerKind(c), t, c.Handler());
    AroundHandler(rs, c, codeSize, t, c.Handler());
    PushKeepsTree(rs, HandlerKind(c), t, c.Handler());
    PushLinked(rs, HandlerKind(c), t, c.Handler());
    if c.kind.FilterAt? {
      FilterFits(rs, rs', c, codeSize, t);
      PushKeepsTree(rs', Filter, t, c.First());
    }
  }

  lemma FilterFits(rs: seq<Region>, rs': seq<Region>, c: Clause, codeSize: nat, t: nat)
    requires Tree(rs) && c.Valid(codeSize) && LiesWell(c, rs) && 0 < t < |rs| && c.kind.FilterAt?
    requires rs[t].kind == Try && rs[t].range == c.Try()
    requires Extends(rs, rs') && |rs'| == |rs| + 1 && rs'[|rs|].range == c.Handler()
    ensures FitsIn(rs', c.First()) && Innermost(rs', c.First(), rs'[t].parent)
  {
    AroundHandler(rs, c, codeSize, t, c.First());
  }

  lemma OriginatedGrows(rs: seq<Region>, rs': seq<Region>, c: Clause, clauses: seq<Clause>)
    requires Originated(rs, clauses) && Extends(rs, rs')
    requires forall i :: |rs| <= i < |rs'| ==> IsBlockOf(rs'[i], c)
    ensures Originated(rs', [c] + clauses)
  {
    forall i | 0 < i < |rs'| ensures HasOrigin(rs'[i], [c] + clauses) {
      if i < |rs| {
        assert HasOrigin(rs[i], clauses);
        var j :| 0 <= j < |clauses| && IsBlockOf(rs[i], clauses[j]);
        assert IsBlockOf(rs'[i], ([c] + clauses)[j + 1]);
      } else {
        assert IsBlockOf(rs'[i], ([c] + clauses)[0]);
      }
    }
  }

  lemma RepresentedGrows(rs: seq<Region>, rs': seq<Region>, c: Clause, clauses: seq<Clause>, t: nat, h: nat, f: nat)
    requires Represented(rs, clauses) && Extends(rs, rs') && ClauseAt(rs', c, t, h, f)
    ensures Represented(rs', [c] + clauses)
  {
    forall j | 0 <= j < |clauses| + 1 ensures ClauseIn(rs', ([c] + clauses)[j]) {
      if j == 0 {
        assert ClauseAt(rs', ([c] + clauses)[j], t, h, f);
      } else {
        assert ClauseIn(rs, clauses[j - 1]);
        var t', h', f' :| ClauseAt(rs, clauses[j - 1], t', h', f');
        assert ClauseAt(rs', ([c] + clauses)[j], t', h', f');
      }
    }
  }

  // ---------------------------------------------------------------------------
  // The order of handlers
  // ---------------------------------------------------------------------------

  datatype Block = Block(kind: Kind, range: Range)

  /** The handler and filter regions in a list of children, in order. */
  function HandlerBlocks(rs: seq<Region>, list: seq<nat>): seq<Block>
  {
    if list == [] then []
    else
      var rest := HandlerBlocks(rs, list[1..]);
      if list[0] < |rs| && OutsideParent(rs[list[0]].kind) then
        [Block(rs[list[0]].kind, rs[list[0]].range)] + rest
      else rest
  }

  function BlocksOf(c: Clause): seq<Block>
  {
    (if c.kind.FilterAt? then [Block(Filter, c.First())] else []) + [Block(HandlerKind(c), c.Handler())]
  }

  /** The filters and handlers of clauses, in order. */
  function BlocksOfAll(cs: seq<Clause>): seq<Block>
  {
    if cs == [] then [] else BlocksOf(cs[0]) + BlocksOfAll(cs[1..])
  }

  /** Each try region's handlers and filters are those of its clauses, in the order of the clauses. */
  ghost predicate HandlersInOrder(rs: seq<Region>, clauses: seq<Clause>)
  {
    forall t :: 0 <= t < |rs| && rs[t].kind == Try ==> InOrderAt(rs, clauses, t)
  }

  ghost predicate InOrderAt(rs: seq<Region>, clauses: seq<Clause>, t: nat)
    requires t < |rs|
  {
    HandlerBlocks(rs, rs[t].children) == BlocksOfAll(HandlersOf(clauses, rs[t].range))
  }

  lemma {:induction false} HandlerBlocksExtend(rs: seq<Region>, rs': seq<Region>, list: seq<nat>)
    requires Extends(rs, rs') && forall k :: 0 <= k < |list| ==> list[k] < |rs|
    ensures HandlerBlocks(rs', list) == HandlerBlocks(rs, list)
  {
    if list != [] {
      HandlerBlocksExtend(rs, rs', list[1..]);
    }
  }

  lemma ChildrenBlocksExtend(rs: seq<Region>, rs': seq<Region>, i: nat)
    requires Linked(rs) && Extends(rs, rs') && i < |rs|
    ensures HandlerBlocks(rs', rs[i].children) == HandlerBlocks(rs, rs[i].children)
  {
    ChildrenAreChildren(rs, i);
    HandlerBlocksExtend(rs, rs', rs[i].children);
  }

  lemma NoClauseNoHandlers(rs: seq<Region>, clauses: seq<Clause>, r: Range)
    requires Represented(rs, clauses) && forall i :: 0 <= i < |rs| && rs[i].kind == Try ==> rs[i].range != r
    ensures HandlersOf(clauses, r) == []
  {
    forall j | 0 <= j < |clauses| ensures clauses[j].Try() != r {
      assert ClauseIn(rs, clauses[j]);
      var t, h, f :| ClauseAt(rs, clauses[j], t, h, f);
    }
    HandlersOfNone(clauses, r);
  }

  /** A new try region has no handlers yet, and the one above it no new ones. */
  lemma NewTryInOrder(rs: seq<Region>, clauses: seq<Clause>, c: Clause, e: nat)
    requires Linked(rs) && Represented(rs, clauses) && HandlersInOrder(rs, clauses) && e < |rs|
    requires forall i :: 0 <= i < |rs| && rs[i].kind == Try ==> rs[i].range != c.Try()
    ensures HandlersInOrder(Push(rs, Try, e, c.Try()), clauses)
  {
    var rs' := Push(rs, Try, e, c.Try());
    PushLinked(rs, Try, e, c.Try());
    NoClauseNoHandlers(rs, clauses, c.Try());
    forall t | 0 <= t < |rs'| && rs'[t].kind == Try ensures InOrderAt(rs', clauses, t) {
      if t < |rs| {
        assert InOrderAt(rs, clauses, t);
        ChildrenBlocksExtend(rs, rs', t);
        assert t == e ==> rs'[t].children[1..] == rs[t].children;
      }
    }
  }

  lemma WithHandlerChildren(rs: seq<Region>, c: Clause, t: nat, i: nat)
    requires t < |rs| && i < |rs|
    ensures var rs' := WithHandler(rs, c, t);
            && i < |rs'|
            && rs'[i].children == (if i == t then (if c.kind.FilterAt? then [|rs| + 1, |rs|] else [|rs|]) else [])
                                  + rs[i].children
  {
  }

  lemma NewHandlersAreNotTries(rs: seq<Region>, c: Clause, t: nat, i: nat)
    requires t < |rs| && i < |WithHandler(rs, c, t)| && WithHandler(rs, c, t)[i].kind == Try
    ensures i < |rs|
  {
  }

  lemma NewBlocksFirst(rs: seq<Region>, rs': seq<Region>, c: Clause, t: nat, list: seq<nat>)
    requires ClauseAt(rs', c, t, |rs|, |rs| + 1)
    ensures HandlerBlocks(rs', (if c.kind.FilterAt? then [|rs| + 1, |rs|] else [|rs|]) + list) ==
            BlocksOf(c) + HandlerBlocks(rs', list)
  {
    assert ([|rs|] + list)[1..] == list;
    if c.kind.FilterAt? {
      assert ([|rs| + 1, |rs|] + list)[1..] == [|rs|] + list;
    }
  }

  lemma BlocksOfFirst(c: Clause, clauses: seq<Clause>)
    ensures BlocksOfAll(HandlersOf([c] + clauses, c.Try())) == BlocksOf(c) + BlocksOfAll(HandlersOf(clauses, c.Try()))
  {
    assert ([c] + clauses)[1..] == clauses;
    var later := HandlersOf(clauses, c.Try());
    assert ([c] + later)[1..] == later;
  }

  lemma RangesDiffer(rs: seq<Region>, i: nat, t: nat)
    requires Tree(rs) && i < |rs| && t < |rs| && i != t
    ensures rs[i].range != rs[t].range
  {
    assert i < t ==> Laminar(rs[i].range, rs[t].range);
    assert t < i ==> Laminar(rs[t].range, rs[i].range);
  }

  lemma OwnInOrder(rs: seq<Region>, rs': seq<Region>, clauses: seq<Clause>, c: Clause, t: nat)
    requires Linked(rs) && Extends(rs, rs') && t < |rs| && InOrderAt(rs, clauses, t)
    requires ClauseAt(rs', c, t, |rs|, |rs| + 1)
    requires rs'[t].children == (if c.kind.FilterAt? then [|rs| + 1, |rs|] else [|rs|]) + rs[t].children
    ensures InOrderAt(rs', [c] + clauses, t)
  {
    ChildrenBlocksExtend(rs, rs', t);
    NewBlocksFirst(rs, rs', c, t, rs[t].children);
    BlocksOfFirst(c, clauses);
  }

  lemma OtherInOrder(rs: seq<Region>, rs': seq<Region>, clauses: seq<Clause>, c: Clause, i: nat)
    requires Linked(rs) && Extends(rs, rs') && i < |rs| && InOrderAt(rs, clauses, i) && rs[i].range != c.Try()
    requires rs'[i].children == rs[i].children
    ensures InOrderAt(rs', [c] + clauses, i)
  {
    ChildrenBlocksExtend(rs, rs', i);
    assert ([c] + clauses)[1..] == clauses;
    assert HandlersOf([c] + clauses, rs[i].range) == HandlersOf(clauses, rs[i].range);
  }

  /** The handlers of a clause come before those of the clauses after it. */
  lemma WithHandlerInOrder(rs: seq<Region>, rs': seq<Region>, clauses: seq<Clause>, c: Clause, t: nat)
    requires Tree(rs) && HandlersInOrder(rs, clauses) && 0 < t < |rs| && rs' == WithHandler(rs, c, t)
    requires rs[t].kind == Try && rs[t].range == c.Try() && Extends(rs, rs') && ClauseAt(rs', c, t, |rs|, |rs| + 1)
    ensures HandlersInOrder(rs', [c] + clauses)
  {
    forall i | 0 <= i < |rs'| && rs'[i].kind == Try ensures InOrderAt(rs', [c] + clauses, i) {
      NewHandlersAreNotTries(rs, c, t, i);
      WithHandlerChildren(rs, c, t, i);
      assert InOrderAt(rs, clauses, i);
      if i == t {
        OwnInOrder(rs, rs', clauses, c, t);
      } else {
        RangesDiffer(rs, i, t);
        OtherInOrder(rs, rs', clauses, c, i);
      }
    }
  }

  // ---------------------------------------------------------------------------
  // Entries
  // ---------------------------------------------------------------------------

  /** Region e is the lexically first of try region t and its handlers and filters. */
  ghost predicate IsEntry(rs: seq<Region>, t: nat, e: nat)
    requires t < |rs|
  {
    && e < |rs| && (e == t || IsHandlerOf(rs, t, e)) && rs[e].range.start <= rs[t].range.start
    && forall h: nat :: IsHandlerOf(rs, t, h) ==> rs[e].range.start <= rs[h].range.start
  }

  predicate IsHandlerOf(rs: seq<Region>, t: nat, h: nat)
  {
    h < |rs| && rs[h].parent == t && OutsideParent(rs[h].kind)
  }

  ghost predicate Entries(rs: seq<Region>, entryRegion: map<nat, nat>)
  {
    forall t :: 0 <= t < |rs| && rs[t].kind == Try ==> t in entryRegion && IsEntry(rs, t, entryRegion[t])
  }

  /** A try region without new handlers keeps its entry. */
  lemma EntryStays(rs: seq<Region>, rs': seq<Region>, t: nat, e: nat)
    requires t < |rs| && IsEntry(rs, t, e) && Extends(rs, rs')
    requires forall h: nat :: IsHandlerOf(rs', t, h) ==> h < |rs|
    ensures IsEntry(rs', t, e)
  {
    assert forall h: nat :: IsHandlerOf(rs', t, h) ==> IsHandlerOf(rs, t, h);
  }

  lemma NewTryEntries(rs: seq<Region>, rs': seq<Region>, entryRegion: map<nat, nat>)
    requires Linked(rs) && Entries(rs, entryRegion) && Extends(rs, rs') && |rs'| == |rs| + 1 && rs'[|rs|].kind == Try
    ensures Entries(rs', entryRegion[|rs| := |rs|])
  {
    forall t | 0 <= t < |rs| && rs[t].kind == Try ensures IsEntry(rs', t, entryRegion[t]) {
      EntryStays(rs, rs', t, entryRegion[t]);
    }
    NewHasNoHandlers(rs, rs');
  }

  lemma NewHasNoHandlers(rs: seq<Region>, rs': seq<Region>)
    requires Linked(rs) && Extends(rs, rs') && |rs'| == |rs| + 1 && rs'[|rs|].kind == Try
    ensures IsEntry(rs', |rs|, |rs|)
  {
    forall h: nat ensures !IsHandlerOf(rs', |rs|, h) {
      assert h < |rs| ==> rs[h].parent <= h;
    }
  }

  /** Regions from n on are handlers of region t that start at or after the last of them. */
  ghost predicate AddedBelow(rs: seq<Region>, n: nat, t: nat)
  {
    && n < |rs|
    && forall h: nat :: n <= h < |rs| ==> IsHandlerOf(rs, t, h) && rs[|rs| - 1].range.start <= rs[h].range.start
  }

  lemma WithHandlerAddsBelow(rs: seq<Region>, rs': seq<Region>, c: Clause, t: nat)
    requires t < |rs| && rs' == WithHandler(rs, c, t) && c.First().start < c.First().end
    ensures AddedBelow(rs', |rs|, t) && rs'[|rs'| - 1].range == c.First()
  {
  }

  /** The last of the added regions is the entry if it comes before the entry so far. */
  lemma OwnEntry(rs: seq<Region>, rs': seq<Region>, t: nat, e: nat)
    requires t < |rs| && IsEntry(rs, t, e) && Extends(rs, rs') && AddedBelow(rs', |rs|, t)
    ensures IsEntry(rs', t, if rs'[|rs'| - 1].range.start < rs[e].range.start then |rs'| - 1 else e)
  {
    assert IsHandlerOf(rs', t, |rs'| - 1);
    assert forall h: nat :: IsHandlerOf(rs', t, h) && h < |rs| ==> IsHandlerOf(rs, t, h);
  }

  /** The check after a clause's regions are made. */
  lemma AddedEntries(rs: seq<Region>, rs': seq<Region>, t: nat, entryRegion: map<nat, nat>)
    requires Entries(rs, entryRegion) && t < |rs| && rs[t].kind == Try && Extends(rs, rs') && AddedBelow(rs', |rs|, t)
    ensures var check := |rs'| - 1;
            Entries(rs', if rs'[check].range.start < rs'[entryRegion[t]].range.start then entryRegion[t := check]
                         else entryRegion)
  {
    assert IsEntry(rs, t, entryRegion[t]);
    OwnEntry(rs, rs', t, entryRegion[t]);
    assert forall h: nat :: |rs| <= h < |rs'| ==> IsHandlerOf(rs', t, h);
    forall u | 0 <= u < |rs'| && rs'[u].kind == Try && u != t
      ensures u < |rs| && u in entryRegion && IsEntry(rs', u, entryRegion[u])
    {
      AddedAreNotTries(rs', |rs|, t, u);
      EntryStays(rs, rs', u, entryRegion[u]);
    }
  }

  lemma AddedAreNotTries(rs: seq<Region>, n: nat, t: nat, u: nat)
    requires AddedBelow(rs, n, t) && u < |rs| && rs[u].kind == Try
    ensures u < n
  {
    assert !IsHandlerOf(rs, t, u);
  }

  // ---------------------------------------------------------------------------
  // Building
  // ---------------------------------------------------------------------------

  /** What the clauses make in any case: their regions and no others, linked up, with the entries of the try
      regions. */
  ghost predicate Made(rs: seq<Region>, entryRegion: map<nat, nat>, clauses: seq<Clause>, codeSize: nat)
  {
    && Linked(rs) && rs[0].range == Range(0, codeSize)
    && Originated(rs, clauses) && Represented(rs, clauses) && Entries(rs, entryRegion)
  }

  /** What they make when they are listed right: properly nested, with handlers in order. */
  ghost predicate Built(rs: seq<Region>, entryRegion: map<nat, nat>, clauses: seq<Clause>, codeSize: nat)
  {
    Made(rs, entryRegion, clauses, codeSize) && ProperlyNested(rs) && HandlersInOrder(rs, clauses)
  }

  /** The try region of one clause is made before the filter or handler of another. */
  ghost predicate TryFirst(rs: seq<Region>, tried: Clause, handled: Clause)
  {
    exists t, f :: 0 <= t < f < |rs| && rs[t].range == tried.Try() && rs[f].range == handled.First()
  }

  /** Clauses are added from the last to the first. */
  ghost predicate LastFirst(rs: seq<Region>, clauses: seq<Clause>)
  {
    forall a, b :: 0 <= a < b < |clauses| ==> TryFirst(rs, clauses[b], clauses[a])
  }

  class RegionTree {
    var regions: seq<Region>
    var entryRegion: map<nat, nat>

    constructor (codeSize: nat)
      requires codeSize > 0
      ensures Built(regions, entryRegion, [], codeSize)
    {
      regions := [Region(Root, 0, Range(0, codeSize), [])];
      entryRegion := map[];
    }

    method MakeRegion(kind: Kind, parent: nat, range: Range) returns (id: nat)
      requires parent < |regions|
      modifies this`regions
      ensures id == |old(regions)| && regions == Push(old(regions), kind, parent, range)
    {
      id := |regions|;
      regions := Push(regions, kind, parent, range);
    }

    /** The region of a clause's try block: an earlier clause's, or a new one. */
    method TryRegion(c: Clause, ghost clauses: seq<Clause>, ghost codeSize: nat, ghost right: bool) returns (t: nat)
      requires Made(regions, entryRegion, clauses, codeSize) && c.Valid(codeSize)
      requires right ==> Built(regions, entryRegion, clauses, codeSize) && LiesWell(c, regions)
      modifies this
      ensures Linked(regions) && Entries(regions, entryRegion) && Extends(old(regions), regions)
      ensures right ==> Tree(regions) && LiesWell(c, regions) && HandlersInOrder(regions, clauses)
      ensures 0 < t < |regions| && regions[t].kind == Try && regions[t].range == c.Try()
      ensures |regions| == |old(regions)| || (|regions| == |old(regions)| + 1 && t == |old(regions)|)
    {
      var enclosing := FindLowestEnclosingRegion(regions, 0, c.Try());
      if regions[enclosing].kind == Try && regions[enclosing].range == c.Try() {
        t := enclosing;
      } else {
        PushLinked(regions, Try, enclosing, c.Try());
        NewTryEntries(regions, Push(regions, Try, enclosing, c.Try()), entryRegion);
        if right {
          NewTryIsRight(regions, c, clauses, codeSize, enclosing);
        }
        t := MakeRegion(Try, enclosing, c.Try());
        entryRegion := entryRegion[t := t];
      }
    }

    /** The handler and filter regions of a clause. */
    method HandlerRegions(c: Clause, t: nat, ghost clauses: seq<Clause>, ghost codeSize: nat, ghost right: bool)
      requires Linked(regions) && c.Valid(codeSize) && Entries(regions, entryRegion)
      requires right ==> Tree(regions) && LiesWell(c, regions) && HandlersInOrder(regions, clauses)
      requires 0 < t < |regions| && regions[t].kind == Try && regions[t].range == c.Try()
      modifies this
      ensures regions == WithHandler(old(regions), c, t)
      ensures Linked(regions) && Entries(regions, entryRegion) && Extends(old(regions), regions)
      ensures ClauseAt(regions, c, t, |old(regions)|, |old(regions)| + 1)
      ensures right ==> Tree(regions) && HandlersInOrder(regions, [c] + clauses)
    {
      WithHandlerKeeps(regions, WithHandler(regions, c, t), entryRegion, c, t);
      if right {
        WithHandlerIsRight(regions, WithHandler(regions, c, t), c, clauses, codeSize, t);
      }
      var checkEntry := MakeHandler(c, t);
      if regions[checkEntry].range.start < regions[entryRegion[t]].range.start {
        entryRegion := entryRegion[t := checkEntry];
      }
    }

    method MakeHandler(c: Clause, t: nat) returns (checkEntry: nat)
      requires t < |regions|
      modifies this`regions
      ensures regions == WithHandler(old(regions), c, t) && checkEntry == |regions| - 1
    {
      checkEntry := MakeRegion(HandlerKind(c), t, c.Handler());
      if c.kind.FilterAt? {
        checkEntry := MakeRegion(Filter, t, c.First());
      }
    }

    /** The regions of a clause are added to those of the clauses listed after it. */
    method AddClause(c: Clause, ghost clauses: seq<Clause>, ghost codeSize: nat)
      requires Made(regions, entryRegion, clauses, codeSize) && c.Valid(codeSize) && LastFirst(regions, clauses)
      modifies this
      ensures Made(regions, entryRegion, [c] + clauses, codeSize) && LastFirst(regions, [c] + clauses)
      ensures old(Built(regions, entryRegion, clauses, codeSize)) && MayComeBefore(c, clauses, codeSize) ==>
                Built(regions, entryRegion, [c] + clauses, codeSize)
    {
      ghost var rs := regions;
      ghost var right := Built(regions, entryRegion, clauses, codeSize) && MayComeBefore(c, clauses, codeSize);
      if right {
        LiesToAll(regions, clauses, codeSize, c);
      }
      var t := TryRegion(c, clauses, codeSize, right);
      ghost var withTry := regions;
      HandlerRegions(c, t, clauses, codeSize, right);
      AddedClause(rs, withTry, regions, c, clauses, t);
    }
  }

  lemma NewTryIsRight(rs: seq<Region>, c: Clause, clauses: seq<Clause>, codeSize: nat, e: nat)
    requires Tree(rs) && Represented(rs, clauses) && HandlersInOrder(rs, clauses)
    requires c.Valid(codeSize) && LiesWell(c, rs)
    requires Innermost(rs, c.Try(), e) && !(rs[e].kind == Try && rs[e].range == c.Try())
    ensures var rs' := Push(rs, Try, e, c.Try()); Tree(rs') && LiesWell(c, rs') && HandlersInOrder(rs', clauses)
  {
    NoTryRegion(rs, c, e);
    NewTryRegion(rs, c, codeSize, e);
    NewTryInOrder(rs, clauses, c, e);
  }

  lemma WithHandlerKeeps(rs: seq<Region>, rs': seq<Region>, entryRegion: map<nat, nat>, c: Clause, t: nat)
    requires Linked(rs) && Entries(rs, entryRegion) && c.First().start < c.First().end
    requires 0 < t < |rs| && rs[t].kind == Try && rs[t].range == c.Try() && rs' == WithHandler(rs, c, t)
    ensures Linked(rs') && Extends(rs, rs') && ClauseAt(rs', c, t, |rs|, |rs| + 1)
    ensures var check := |rs'| - 1;
            Entries(rs', if rs'[check].range.start < rs'[entryRegion[t]].range.start then entryRegion[t := check]
                         else entryRegion)
  {
    WithHandlerLinked(rs, c, t);
    WithHandlerAddsBelow(rs, rs', c, t);
    AddedEntries(rs, rs', t, entryRegion);
  }

  lemma WithHandlerIsRight(rs: seq<Region>, rs': seq<Region>, c: Clause, clauses: seq<Clause>, codeSize: nat, t: nat)
    requires Tree(rs) && c.Valid(codeSize) && LiesWell(c, rs) && HandlersInOrder(rs, clauses)
    requires 0 < t < |rs| && rs[t].kind == Try && rs[t].range == c.Try() && rs' == WithHandler(rs, c, t)
    ensures Tree(rs') && HandlersInOrder(rs', [c] + clauses)
  {
    WithHandlerLinked(rs, c, t);
    WithHandlerKeepsTree(rs, c, codeSize, t);
    WithHandlerInOrder(rs, rs', clauses, c, t);
  }

  /** A clause that may precede all clauses of a list. */
  ghost predicate MayComeBefore(c: Clause, clauses: seq<Clause>, codeSize: nat)
  {
    forall j :: 0 <= j < |clauses| ==> clauses[j].Valid(codeSize) && MayPrecede(c, clauses[j])
  }

  lemma AddedClause(rs: seq<Region>, withTry: seq<Region>, rs': seq<Region>, c: Clause, clauses: seq<Clause>, t: nat)
    requires Originated(rs, clauses) && Represented(rs, clauses) && LastFirst(rs, clauses)
    requires t < |withTry| && withTry[t].kind == Try && withTry[t].range == c.Try()
    requires Extends(rs, withTry) && Extends(withTry, rs') && rs' == WithHandler(withTry, c, t)
    requires |withTry| == |rs| || (|withTry| == |rs| + 1 && t == |rs|)
    requires ClauseAt(rs', c, t, |withTry|, |withTry| + 1)
    ensures Originated(rs', [c] + clauses) && Represented(rs', [c] + clauses) && LastFirst(rs', [c] + clauses)
    ensures Extends(rs, rs')
  {
    assert Extends(rs, rs');
    RepresentedGrows(rs, rs', c, clauses, t, |withTry|, |withTry| + 1);
    WithHandlerIsBlocks(withTry, c, t);
    assert IsBlockOf(rs'[t], c);
    OriginatedGrows(rs, rs', c, clauses);
    LastFirstGrows(rs, rs', c, clauses);
  }

  lemma LastFirstGrows(rs: seq<Region>, rs': seq<Region>, c: Clause, clauses: seq<Clause>)
    requires Represented(rs, clauses) && LastFirst(rs, clauses) && Extends(rs, rs')
    requires |rs| < |rs'| && rs'[|rs'| - 1].range == c.First()
    ensures LastFirst(rs', [c] + clauses)
  {
    var all := [c] + clauses;
    forall a, b | 0 <= a < b < |all| ensures TryFirst(rs', all[b], all[a]) {
      if a == 0 {
        NewIsAfter(rs, rs', clauses[b - 1], c);
      } else {
        assert TryFirst(rs, clauses[b - 1], clauses[a - 1]);
        OrderStaysFirst(rs, rs', clauses[b - 1], clauses[a - 1]);
      }
    }
  }

  lemma NewIsAfter(rs: seq<Region>, rs': seq<Region>, d: Clause, c: Clause)
    requires ClauseIn(rs, d) && Extends(rs, rs') && |rs| < |rs'| && rs'[|rs'| - 1].range == c.First()
    ensures TryFirst(rs', d, c)
  {
    var t: nat, h: nat, f: nat :| ClauseAt(rs, d, t, h, f);
    assert t < |rs| <= |rs'| - 1 && rs'[t].range == d.Try();
  }

  lemma OrderStaysFirst(rs: seq<Region>, rs': seq<Region>, d: Clause, c: Clause)
    requires TryFirst(rs, d, c) && Extends(rs, rs')
    ensures TryFirst(rs', d, c)
  {
    var t, f :| 0 <= t < f < |rs| && rs[t].range == d.Try() && rs[f].range == c.First();
    assert rs'[t].range == d.Try() && rs'[f].range == c.First();
  }

  lemma WithHandlerIsBlocks(rs: seq<Region>, c: Clause, t: nat)
    requires t < |rs|
    ensures var rs' := WithHandler(rs, c, t); forall i :: |rs| <= i < |rs'| ==> IsBlockOf(rs'[i], c)
  {
  }

  lemma NoTryRegion(rs: seq<Region>, c: Clause, e: nat)
    requires LiesWell(c, rs) && Innermost(rs, c.Try(), e) && !(rs[e].kind == Try && rs[e].range == c.Try())
    ensures forall i :: 0 <= i < |rs| ==> rs[i].range != c.Try()
  {
    forall i | 0 <= i < |rs| ensures rs[i].range != c.Try() {
      assert rs[i].range == c.Try() ==> Within(rs[e].range, rs[i].range);
    }
  }

  /** In a properly nested tree what lies around a region was made before it. */
  lemma {:induction false} AroundIsOlder(rs: seq<Region>, f: nat, t: nat)
    requires Tree(rs) && f < |rs| && t < |rs| && f != t && Within(rs[t].range, rs[f].range)
    ensures f < t
    decreases |rs| - f
  {
    var h := DirectlyEnclosed(rs, f, t);
    if h != t {
      AroundIsOlder(rs, h, t);
    }
  }

  /** When an inner clause ends up after the clause of its filter, the regions are not properly nested. */
  lemma OutOfOrderIsNotNested(rs: seq<Region>, cs: seq<Clause>, codeSize: nat)
    requires Linked(rs) && Rules(cs, codeSize) && TestFirst(cs, |cs|) && LastFirst(rs, cs) && !InnerFirst(cs, |cs|)
    ensures !ProperlyNested(rs)
  {
    var a, b :| 0 <= a < b < |cs| && Nested(cs[b], cs[a]);
    PairAt(cs, a, b, codeSize);
    MissedExactlyInFilters(cs[b], cs[a], codeSize);
    assert TryFirst(rs, cs[b], cs[a]);
    var t, f :| 0 <= t < f < |rs| && rs[t].range == cs[b].Try() && rs[f].range == cs[a].First();
    if ProperlyNested(rs) {
      AroundIsOlder(rs, f, t);
      assert false;
    }
  }

  /** Under the rules the clauses make their regions, in whatever order they are listed. These are properly
      nested, with handlers in order, if and only if filters are sheltered in the listing. */
  method CreateRegionTree(clauses: seq<Clause>, codeSize: nat) returns (tree: RegionTree?)
    requires Rules(clauses, codeSize) && |clauses| < 0x1_0000 && codeSize > 0
    ensures clauses == [] <==> tree == null
    ensures tree != null ==> fresh(tree) && Made(tree.regions, tree.entryRegion, clauses, codeSize)
    ensures tree != null ==> AllHandled(tree.regions, clauses)
    ensures tree != null ==> (ProperlyNested(tree.regions) <==> FiltersSheltered(clauses, |clauses|))
    ensures tree != null && FiltersSheltered(clauses, |clauses|) ==>
              Built(tree.regions, tree.entryRegion, clauses, codeSize)
  {
    if clauses == [] {
      return null;
    }
    var clauseList := SortClauses(clauses, codeSize);
    tree := AddAll(clauseList, codeSize);
    assert clauseList[0..] == clauseList;
    if InnerFirst(clauseList, |clauseList|) {
      PermutedIsBuilt(tree.regions, tree.entryRegion, clauseList, clauses, codeSize);
    } else {
      OutOfOrderIsNotNested(tree.regions, clauseList, codeSize);
      PermutedIsMade(tree.regions, tree.entryRegion, clauseList, clauses, codeSize);
    }
    RepresentedIsHandled(tree.regions, clauses);
  }

  /** The clauses from the i-th on have been added. */
  ghost predicate Added(rs: seq<Region>, entryRegion: map<nat, nat>, list: seq<Clause>, codeSize: nat, i: nat)
  {
    && i <= |list| && Made(rs, entryRegion, list[i..], codeSize) && LastFirst(rs, list[i..])
    && (InnerFirst(list, |list|) ==> Built(rs, entryRegion, list[i..], codeSize))
  }

  /** The loop from the outermost clause to the innermost. */
  method AddAll(clauseList: seq<Clause>, codeSize: nat) returns (tree: RegionTree)
    requires Rules(clauseList, codeSize) && codeSize > 0
    ensures fresh(tree) && Added(tree.regions, tree.entryRegion, clauseList, codeSize, 0)
  {
    tree := new RegionTree(codeSize);
    var i := |clauseList|;
    assert clauseList[i..] == [];
    while i != 0
      invariant 0 <= i <= |clauseList| && fresh(tree)
      invariant Added(tree.regions, tree.entryRegion, clauseList, codeSize, i)
    {
      i := i - 1;
      AddAt(tree, clauseList, codeSize, i);
    }
  }

  method AddAt(tree: RegionTree, clauseList: seq<Clause>, ghost codeSize: nat, i: nat)
    requires Rules(clauseList, codeSize) && i < |clauseList|
    requires Added(tree.regions, tree.entryRegion, clauseList, codeSize, i + 1)
    modifies tree
    ensures Added(tree.regions, tree.entryRegion, clauseList, codeSize, i)
  {
    ghost var later := clauseList[i + 1..];
    if InnerFirst(clauseList, |clauseList|) {
      LaterMayFollow(clauseList, codeSize, i);
    }
    tree.AddClause(clauseList[i], later, codeSize);
    OneLonger(clauseList, i);
  }

  lemma OneLonger(list: seq<Clause>, i: nat)
    requires i < |list|
    ensures [list[i]] + list[i + 1..] == list[i..]
  {
  }

  lemma LaterMayFollow(cs: seq<Clause>, codeSize: nat, i: nat)
    requires Rules(cs, codeSize) && InnerFirst(cs, |cs|) && i < |cs|
    ensures cs[i].Valid(codeSize) && MayComeBefore(cs[i], cs[i + 1..], codeSize) && cs[i..] == [cs[i]] + cs[i + 1..]
  {
    var later := cs[i + 1..];
    forall j | 0 <= j < |later| ensures later[j].Valid(codeSize) && MayPrecede(cs[i], later[j]) {
      SortedPrecede(cs, codeSize, i, i + 1 + j);
    }
  }

  /** What the sorted clauses make is what the clauses as listed make. */
  lemma PermutedIsMade(rs: seq<Region>, entryRegion: map<nat, nat>, sorted: seq<Clause>, clauses: seq<Clause>,
                       codeSize: nat)
    requires Made(rs, entryRegion, sorted, codeSize) && multiset(sorted) == multiset(clauses)
    ensures Made(rs, entryRegion, clauses, codeSize)
  {
    forall i | 0 < i < |rs| ensures HasOrigin(rs[i], clauses) {
      assert HasOrigin(rs[i], sorted);
      var j :| 0 <= j < |sorted| && IsBlockOf(rs[i], sorted[j]);
      assert sorted[j] in multiset(clauses);
      var k :| 0 <= k < |clauses| && clauses[k] == sorted[j];
    }
    forall j | 0 <= j < |clauses| ensures ClauseIn(rs, clauses[j]) {
      assert clauses[j] in multiset(sorted);
      var k :| 0 <= k < |sorted| && sorted[k] == clauses[j];
      assert ClauseIn(rs, sorted[k]);
    }
  }

  lemma PermutedIsBuilt(rs: seq<Region>, entryRegion: map<nat, nat>, sorted: seq<Clause>, clauses: seq<Clause>,
                        codeSize: nat)
    requires Built(rs, entryRegion, sorted, codeSize) && multiset(sorted) == multiset(clauses)
    requires forall r :: HandlersOf(sorted, r) == HandlersOf(clauses, r)
    ensures Built(rs, entryRegion, clauses, codeSize)
  {
    PermutedIsMade(rs, entryRegion, sorted, clauses, codeSize);
    forall t | 0 <= t < |rs| && rs[t].kind == Try ensures InOrderAt(rs, clauses, t) {
      assert InOrderAt(rs, sorted, t);
    }
  }

  // ---------------------------------------------------------------------------
  // Finding a handler
  // ---------------------------------------------------------------------------

  /** A handler region is a finally, fault or catch region, or the handler of a filter, just as its clause is. */
  predicate KindFits(kind: Kind, clauseKind: ClauseKind)
  {
    && (kind == Kind.Finally <==> clauseKind.Finally?)
    && (kind == Kind.Fault <==> clauseKind.Fault?)
    && (kind == MCatch <==> clauseKind.Catch?)
    && (kind == MExcept <==> clauseKind.FilterAt?)
  }

  /** Region h has the range of a clause's handler and lies below the region of its try block. */
  predicate HandledBy(rs: seq<Region>, c: Clause, t: nat, h: nat)
  {
    && t < |rs| && rs[t].kind == Try && rs[t].range == Range(c.tryOffset, c.tryOffset + c.tryLength)
    && h < |rs| && rs[h].parent == t && rs[h].range == Range(c.handlerOffset, c.handlerOffset + c.handlerLength)
    && KindFits(rs[h].kind, c.kind)
  }

  /** Region f is the filter of a clause with a filter: it ends where the handler starts. */
  predicate FilteredBy(rs: seq<Region>, c: Clause, t: nat, f: nat)
  {
    c.kind.FilterAt? ==>
      f < |rs| && rs[f].kind == Filter && rs[f].parent == t && rs[f].range == Range(c.kind.offset, c.handlerOffset)
  }

  ghost predicate HasHandler(rs: seq<Region>, c: Clause)
  {
    exists t, h, f :: HandledBy(rs, c, t, h) && FilteredBy(rs, c, t, f)
  }

  /** Every clause has a handler region of its kind, and a filter region if it has a filter. */
  ghost predicate AllHandled(rs: seq<Region>, clauses: seq<Clause>)
  {
    forall j :: 0 <= j < |clauses| ==> HasHandler(rs, clauses[j])
  }

  lemma RepresentedIsHandled(rs: seq<Region>, clauses: seq<Clause>)
    requires Represented(rs, clauses)
    ensures AllHandled(rs, clauses)
  {
    forall j | 0 <= j < |clauses| ensures HasHandler(rs, clauses[j]) {
      assert ClauseIn(rs, clauses[j]);
      var t, h, f :| ClauseAt(rs, clauses[j], t, h, f);
      assert HandledBy(rs, clauses[j], t, h) && FilteredBy(rs, clauses[j], t, f);
    }
  }

  /** The clause is a finally clause of a try region. */
  predicate FinallyOf(rs: seq<Region>, t: nat, c: Clause)
  {
    t < |rs| && c.kind.Finally? && c.Try() == rs[t].range
  }

  ghost predicate HasFinally(rs: seq<Region>, clauses: seq<Clause>, t: nat)
  {
    exists j :: 0 <= j < |clauses| && FinallyOf(rs, t, clauses[j])
  }

  /** Region h is the handler region of a finally clause of a try region. */
  ghost predicate IsFinallyOf(rs: seq<Region>, clauses: seq<Clause>, t: nat, h: nat)
  {
    exists j :: 0 <= j < |clauses| && FinallyOf(rs, t, clauses[j]) && HandledBy(rs, clauses[j], t, h)
  }

  /** The first finally region among the children of a region. */
  method FirstFinally(rs: seq<Region>, t: nat) returns (found: Option<nat>)
    requires Linked(rs) && t < |rs|
    ensures match found
            case Some(h) => IsChild(rs, t, h) && rs[h].kind == Kind.Finally
            case None => NoChildIsFinally(rs, t)
  {
    var list := rs[t].children;
    ChildrenAreChildren(rs, t);
    for i := 0 to |list|
      invariant forall k :: 0 <= k < i ==> rs[list[k]].kind != Kind.Finally
    {
      if rs[list[i]].kind == Kind.Finally {
        return Some(list[i]);
      }
    }
    return None;
  }

  ghost predicate NoChildIsFinally(rs: seq<Region>, t: nat)
    requires t < |rs|
  {
    forall k :: 0 <= k < |rs[t].children| ==>
      rs[t].children[k] < |rs| && rs[rs[t].children[k]].kind != Kind.Finally
  }

  /** What is found for a try region is the handler of its try block's finally clause, and something is found
      exactly when it has one. */
  method GetFinallyRegion(rs: seq<Region>, t: nat, ghost clauses: seq<Clause>, ghost codeSize: nat)
    returns (found: Option<nat>)
    requires TreeOf(rs, clauses, codeSize) && t < |rs| && rs[t].kind == Try
    ensures found.Some? ==> IsFinallyOf(rs, clauses, t, found.value)
    ensures found.Some? <==> HasFinally(rs, clauses, t)
  {
    found := FirstFinally(rs, t);
    if found.Some? {
      FinallyIsOfClause(rs, clauses, codeSize, t, found.value);
    } else {
      NoFinallyChild(rs, clauses, codeSize, t);
    }
  }

  /** A finally region below a try region is the handler of a finally clause of that try block. */
  lemma FinallyIsOfClause(rs: seq<Region>, clauses: seq<Clause>, codeSize: nat, t: nat, h: nat)
    requires TreeOf(rs, clauses, codeSize) && t < |rs| && IsChild(rs, t, h) && rs[h].kind == Kind.Finally
    ensures IsFinallyOf(rs, clauses, t, h) && HasFinally(rs, clauses, t)
  {
    assert HasOrigin(rs[h], clauses);
    var j :| 0 <= j < |clauses| && IsBlockOf(rs[h], clauses[j]);
    RepresentedIsHandled(rs, clauses);
    assert HasHandler(rs, clauses[j]);
    HandlerIs(rs, clauses[j], t, h);
  }

  /** The one region with the range of a clause's handler handles it. */
  lemma HandlerIs(rs: seq<Region>, c: Clause, t: nat, h: nat)
    requires Tree(rs) && HasHandler(rs, c) && IsChild(rs, t, h) && rs[h].range == c.Handler()
    ensures HandledBy(rs, c, t, h)
  {
    var t', h', f' :| HandledBy(rs, c, t', h') && FilteredBy(rs, c, t', f');
    if h != h' {
      RangesDiffer(rs, h, h');
    }
  }

  lemma NoFinallyChild(rs: seq<Region>, clauses: seq<Clause>, codeSize: nat, t: nat)
    requires TreeOf(rs, clauses, codeSize) && t < |rs|
    requires NoChildIsFinally(rs, t)
    ensures !HasFinally(rs, clauses, t)
  {
    forall j | 0 <= j < |clauses| ensures !FinallyOf(rs, t, clauses[j]) {
      if FinallyOf(rs, t, clauses[j]) {
        var h := ClauseHasFinally(rs, clauses, codeSize, t, j);
        assert false;
      }
    }
  }

  lemma ClauseHasFinally(rs: seq<Region>, clauses: seq<Clause>, codeSize: nat, t: nat, j: nat) returns (h: nat)
    requires TreeOf(rs, clauses, codeSize) && j < |clauses| && FinallyOf(rs, t, clauses[j])
    ensures h in rs[t].children && h < |rs| && rs[h].kind == Kind.Finally
  {
    RepresentedIsHandled(rs, clauses);
    assert HasHandler(rs, clauses[j]);
    var t': nat, h': nat, f' :| HandledBy(rs, clauses[j], t', h') && FilteredBy(rs, clauses[j], t', f');
    if t != t' {
      RangesDiffer(rs, t, t');
    }
    h := h';
    assert h > 0 && IsChild(rs, t, h);
  }
}
