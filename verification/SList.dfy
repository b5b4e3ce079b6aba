/** The intrusive singly linked list with an embedded sentinel: a first-in first-out queue of links. */
module SList {

  class SLink {
    var next: SLink?

    constructor ()
      ensures next == null
    {
      next := null;
    }
  }

  predicate AllDifferent(chain: seq<SLink>)
  {
    forall i, j :: 0 <= i < j < |chain| ==> chain[i] != chain[j]
  }

  /** The elements of a chain point at the links, in order. */
  predicate Follow(chain: seq<SLink>, links: seq<SLink>)
    requires |links| <= |chain|
    reads chain
  {
    forall i :: 0 <= i < |links| ==> chain[i].next == links[i]
  }

  class SList {
    const sentinel: SLink
    const head: SLink
    var tail: SLink

    /** The links in the list, oldest first. */
    ghost var links: seq<SLink>

    /** The list is a chain from the sentinel through the links to a null next, and the tail is its
        last element, the sentinel when there are no links. No link occurs twice. */
    ghost predicate Valid()
      reads this, sentinel, links
    {
      var chain := [sentinel] + links;
      && head == sentinel && AllDifferent(chain) && Follow(chain, links)
      && tail == chain[|links|]
      && tail.next == null
    }

    constructor ()
      ensures Valid() && links == [] && fresh(sentinel)
    {
      var s := new SLink();
      sentinel, head, tail, links := s, s, s, [];
    }

    method IsEmpty() returns (r: bool)
      requires Valid()
      ensures r <==> links == []
    {
      r := head.next == null;
      assert links != [] ==> ([sentinel] + links)[0].next == links[0];
    }

    method GetHead() returns (link: SLink?)
      requires Valid()
      ensures if links == [] then link == null else link == links[0]
    {
      link := head.next;
      assert links != [] ==> ([sentinel] + links)[0].next == links[0];
    }

    method GetNext(ghost i: nat, link: SLink) returns (next: SLink?)
      requires Valid() && i < |links| && link == links[i]
      ensures if i + 1 < |links| then next == links[i + 1] else next == null
    {
      next := link.next;
      assert ([sentinel] + links)[i + 1] == link;
    }

    /** The new link goes after the tail. The result is a list again exactly when the link was detached
        and was not the tail itself, which then is a link that points at itself; in particular a link
        in the list, or the sentinel, never makes a list. */
    method InsertTail(link: SLink)
      requires Valid()
      modifies this, tail
      ensures links == old(links) + [link] && tail == link && old(tail).next == link
      ensures link != old(tail) ==> link.next == old(link.next)
      ensures Valid() <==> old(link.next) == null && link != old(tail)
      ensures Valid() <==> old(link.next) == null && link !in old(links) && link != sentinel
    {
      ghost var before := [sentinel] + links;
      OnlyTailIsDetached(link);
      assert Follow(before, links) && forall i :: 0 <= i < |links| ==> before[i] != tail;
      tail.next := link;
      tail := link;
      links := links + [link];
      if link.next == null {
        assert Follow(before, before[1..]);
        StillAList(before, link);
      }
    }

    /** A chain with a detached link put after its last one is a list again. */
    lemma StillAList(before: seq<SLink>, link: SLink)
      requires head == sentinel && before != [] && before[0] == sentinel && links == before[1..] + [link]
      requires AllDifferent(before) && link !in before && tail == link && link.next == null
      requires Follow(before, before[1..]) && before[|before| - 1].next == link
      ensures Valid()
    {
      assert [sentinel] + links == before + [link];
    }

    /** In a list only the tail points nowhere. */
    lemma OnlyTailIsDetached(link: SLink)
      requires Valid()
      ensures link in links || link == sentinel ==> (link.next == null <==> link == tail)
    {
      var chain := [sentinel] + links;
      assert link in links || link == sentinel ==> link in chain;
      forall i | 0 <= i < |links| ensures chain[i] != tail && chain[i].next != null {
        assert chain[i].next == links[i];
      }
    }

    /** The oldest link follows the sentinel, the others follow it, and no link occurs twice. */
    lemma HeadFirst()
      requires Valid() && links != []
      ensures head.next == links[0] && sentinel !in links && links[0] !in links[1..]
      ensures AllDifferent([sentinel] + links[1..]) && Follow(links, links[1..]) && tail == links[|links| - 1]
    {
      var chain, rest := [sentinel] + links, [sentinel] + links[1..];
      assert chain[0].next == links[0];
      assert forall i :: 0 <= i < |links| ==> links[i] == chain[i + 1];
      assert forall i :: 1 <= i < |rest| ==> rest[i] == chain[i + 1];
      forall i | 0 <= i < |links| - 1 ensures links[i].next == links[1..][i] {
        assert chain[i + 1].next == links[i + 1];
      }
    }

    /** The links after the oldest are a list again once the sentinel points at the first of them. */
    lemma RestIsAList(first: SLink)
      requires head == sentinel && AllDifferent([sentinel] + links) && Follow([first] + links, links)
      requires head.next == (if links == [] then null else links[0])
      requires tail == ([sentinel] + links)[|links|] && tail.next == null
      ensures Valid()
    {
      var chain, before := [sentinel] + links, [first] + links;
      forall i | 0 <= i < |links| ensures chain[i].next == links[i] {
        assert before[i].next == links[i] && (i > 0 ==> chain[i] == before[i]);
      }
    }

    /** The oldest link leaves, and keeps pointing at its former successor. */
    method RemoveHead() returns (link: SLink?)
      requires Valid()
      modifies this, sentinel
      ensures Valid()
      ensures old(links) == [] ==> link == null && links == []
      ensures old(links) != [] ==> link == old(links)[0] && links == old(links)[1..]
      ensures link != null ==> link.next == (if links == [] then null else links[0])
      ensures link != null ==> link !in links && link != sentinel
    {
      link := head.next;
      assert links == [] ==> link == null by { OnlyTailIsDetached(head); }
      if link != null {
        HeadFirst();
        assert [link] + links[1..] == links && (|links| > 1 ==> links[0].next == links[1..][0]);
        head.next := link.next;
        links := links[1..];
      }
      if tail == link {
        tail := head;
      }
      if link != null {
        RestIsAList(link);
      }
    }
  }

  // ---------------------------------------------------------------------------
  // Runs
  // ---------------------------------------------------------------------------

  datatype Op = Insert(link: SLink) | Remove

  /** The queue after a run, and what its removals returned, in order. */
  function Queue(q: seq<SLink>, ops: seq<Op>): (seq<SLink>, seq<SLink>)
    decreases |ops|
  {
    if ops == [] then (q, [])
    else
      match ops[0]
      case Insert(link) => Queue(q + [link], ops[1..])
      case Remove =>
        if q == [] then Queue(q, ops[1..])
        else
          var (rest, out) := Queue(q[1..], ops[1..]);
          (rest, [q[0]] + out)
  }

  function Inserted(ops: seq<Op>): seq<SLink>
  {
    if ops == [] then []
    else
      match ops[0]
      case Insert(link) => [link] + Inserted(ops[1..])
      case Remove => Inserted(ops[1..])
  }

  /** First in, first out, under any interleaving: what came out followed by what is left is what
      was there followed by what went in. */
  lemma {:induction false} QueueIsFifo(q: seq<SLink>, ops: seq<Op>)
    ensures Queue(q, ops).1 + Queue(q, ops).0 == q + Inserted(ops)
    decreases |ops|
  {
    if ops != [] {
      match ops[0]
      case Insert(link) =>
        QueueIsFifo(q + [link], ops[1..]);
        assert (q + [link]) + Inserted(ops[1..]) == q + ([link] + Inserted(ops[1..]));
      case Remove =>
        if q == [] {
          QueueIsFifo(q, ops[1..]);
        } else {
          var (rest, out) := Queue(q[1..], ops[1..]);
          QueueIsFifo(q[1..], ops[1..]);
          assert ([q[0]] + out) + rest == [q[0]] + (out + rest) == [q[0]] + (q[1..] + Inserted(ops[1..]));
          assert [q[0]] + (q[1..] + Inserted(ops[1..])) == q + Inserted(ops[1..]);
        }
    }
  }

  /** Every link inserted is loose when its turn comes: detached and not in the list. A removed link
      is loose again if it was the last one, and otherwise still points at its former successor. */
  predicate Insertable(q: seq<SLink>, loose: set<SLink>, ops: seq<Op>)
    decreases |ops|
  {
    ops != [] ==>
      match ops[0]
      case Insert(link) => link in loose && Insertable(q + [link], loose - {link}, ops[1..])
      case Remove =>
        if q == [] then Insertable(q, loose, ops[1..])
        else Insertable(q[1..], if |q| == 1 then loose + {q[0]} else loose, ops[1..])
  }

  /** Links that are detached and not in the list. */
  ghost predicate AllLoose(list: SList, loose: set<SLink>)
    reads list, loose
  {
    forall link :: link in loose ==> link.next == null && link != list.sentinel && link !in list.links
  }

  method InsertLoose(list: SList, link: SLink, ghost loose: set<SLink>)
    requires list.Valid() && AllLoose(list, loose) && link in loose
    modifies list, list.tail
    ensures list.Valid() && list.links == old(list.links) + [link] && AllLoose(list, loose - {link})
    ensures list.tail == link
  {
    assert list.tail in [list.sentinel] + list.links;
    list.InsertTail(link);
  }

  /** The last link removed is loose. */
  method RemoveLoose(list: SList, ghost loose: set<SLink>) returns (first: SLink?)
    requires list.Valid() && AllLoose(list, loose)
    modifies list, list.sentinel
    ensures list.Valid() && AllLoose(list, if |old(list.links)| == 1 then loose + {old(list.links)[0]} else loose)
    ensures if old(list.links) == [] then first == null && list.links == []
            else first == old(list.links)[0] && list.links == old(list.links)[1..]
  {
    first := list.RemoveHead();
  }

  /** A run of a real list: insertions of loose links and removals in any order give the same links
      out and leave the same links in as the queue. */
  method RunOps(list: SList, ops: seq<Op>, ghost loose: set<SLink>) returns (out: seq<SLink>)
    requires list.Valid() && AllLoose(list, loose) && Insertable(list.links, loose, ops)
    modifies list, list.sentinel, list.links, loose
    ensures list.Valid() && (list.links, out) == Queue(old(list.links), ops)
    decreases |ops|
  {
    out := [];
    if ops != [] {
      match ops[0]
      case Insert(link) =>
        InsertLoose(list, link, loose);
        out := RunOps(list, ops[1..], loose - {link});
      case Remove =>
        ghost var q := list.links;
        var first := RemoveLoose(list, loose);
        out := RunOps(list, ops[1..], if |q| == 1 then loose + {q[0]} else loose);
        if first != null {
          out := [first] + out;
        }
    }
  }
}
