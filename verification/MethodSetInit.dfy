/** Publication of the parsed pattern list when several threads initialise the set at once, as a
    state machine over the steps the threads take. */
module MethodSetInit {
  import opened MethodPatterns
  import opened Options

  type Thread = nat

  /** Where a thread is in init: before the check, after a check that found no list, with its own list
      built, having won or lost the compare-and-swap, or returned in one of the three ways. */
  datatype Pc = Start | Checked | Built | Won | Lost | Skipped | Published | Deleted

  /** The shared fields, the lists that exist, and every thread's position. Each thread's list is
      known by the thread that built it. */
  datatype State = State(initialized: bool, published: Option<Thread>, live: set<Thread>, pc: map<Thread, Pc>)

  predicate Returned(pc: Pc)
  {
    pc == Skipped || pc == Published || pc == Deleted
  }

  ghost predicate Init(s: State)
  {
    !s.initialized && s.published == None && s.live == {} && forall t :: t in s.pc ==> s.pc[t] == Start
  }

  /** One step of one thread. */
  function StepOf(s: State, t: Thread): State
    requires t in s.pc
  {
    match s.pc[t]
    case Start => s.(pc := s.pc[t := if s.published.Some? then Skipped else Checked])
    case Checked => s.(pc := s.pc[t := Built], live := s.live + {t})
    case Built =>
      if s.initialized then s.(pc := s.pc[t := Lost])
      else s.(pc := s.pc[t := Won], initialized := true)
    case Won => s.(pc := s.pc[t := Published], published := Some(t))
    case Lost => s.(pc := s.pc[t := Deleted], live := s.live - {t})
    case Skipped | Published | Deleted => s
  }

  /** Any interleaving: a run is a start and the threads that step, in order. */
  function Run(s: State, schedule: seq<Thread>): State
    requires forall i :: 0 <= i < |schedule| ==> schedule[i] in s.pc
    ensures Run(s, schedule).pc.Keys == s.pc.Keys
  {
    if schedule == [] then s
    else
      var n := |schedule| - 1;
      StepOf(Run(s, schedule[..n]), schedule[n])
  }

  predicate IsWinner(s: State, t: Thread)
  {
    t in s.pc && (s.pc[t] == Won || s.pc[t] == Published)
  }

  /** What every reachable state keeps. */
  ghost predicate Invariant(s: State)
  {
    && (forall t, u :: IsWinner(s, t) && IsWinner(s, u) ==> t == u)
    && (s.initialized <==> exists t :: IsWinner(s, t))
    && (forall t :: s.published == Some(t) <==> t in s.pc && s.pc[t] == Published)
    && (forall t :: t in s.live <==>
          t in s.pc && (s.pc[t] == Built || s.pc[t] == Won || s.pc[t] == Lost || s.pc[t] == Published))
    && (forall t :: t in s.pc && (s.pc[t] == Lost || s.pc[t] == Deleted) ==> s.initialized)
    && (forall t :: t in s.pc && s.pc[t] == Skipped ==> s.published.Some?)
  }

  lemma StepKeepsInvariant(s: State, t: Thread)
    requires Invariant(s) && t in s.pc
    ensures Invariant(StepOf(s, t))
  {
    var s' := StepOf(s, t);
    assert s.published.Some? ==> IsWinner(s, s.published.value);
    assert s.pc[t] == Won ==> IsWinner(s, t) && s.published == None;
    if s.initialized {
      var w :| IsWinner(s, w);
      assert IsWinner(s', w);
    } else if s.pc[t] == Built {
      assert IsWinner(s', t);
    }
    assert forall u :: IsWinner(s', u) ==> IsWinner(s, u) || (u == t && s.pc[t] == Built && !s.initialized);
  }

  lemma {:induction false} RunKeepsInvariant(s: State, schedule: seq<Thread>)
    requires Init(s) && forall i :: 0 <= i < |schedule| ==> schedule[i] in s.pc
    ensures Invariant(Run(s, schedule))
  {
    if schedule != [] {
      var n := |schedule| - 1;
      RunKeepsInvariant(s, schedule[..n]);
      StepKeepsInvariant(Run(s, schedule[..n]), schedule[n]);
    }
  }

  /** In any interleaving at most one thread wins the compare-and-swap, the published list is the
      winner's and exists, and a list whose thread lost and returned does not. */
  lemma OneWinner(s: State, schedule: seq<Thread>, t: Thread, u: Thread)
    requires Init(s) && forall i :: 0 <= i < |schedule| ==> schedule[i] in s.pc
    ensures var r := Run(s, schedule);
            && (IsWinner(r, t) && IsWinner(r, u) ==> t == u)
            && (r.published == Some(t) ==> IsWinner(r, t) && t in r.live)
            && (t in r.pc && r.pc[t] == Deleted ==> t !in r.live)
  {
    RunKeepsInvariant(s, schedule);
  }

  lemma StepKeepsPublished(s: State, t: Thread, w: Thread)
    requires Invariant(s) && t in s.pc && s.published == Some(w)
    ensures StepOf(s, t).published == Some(w)
  {
    assert s.pc[t] == Won ==> IsWinner(s, t) && IsWinner(s, w);
  }

  lemma LastStepKeepsPublished(s: State, schedule: seq<Thread>, w: Thread)
    requires Init(s) && schedule != [] && forall i :: 0 <= i < |schedule| ==> schedule[i] in s.pc
    requires Run(s, schedule[..|schedule| - 1]).published == Some(w)
    ensures Run(s, schedule).published == Some(w)
  {
    RunKeepsInvariant(s, schedule[..|schedule| - 1]);
    StepKeepsPublished(Run(s, schedule[..|schedule| - 1]), schedule[|schedule| - 1], w);
  }

  /** Once published, a list stays published: the field goes from null to one list and never changes. */
  lemma {:induction false} PublishedOnce(s: State, schedule: seq<Thread>, k: nat, t: Thread)
    requires Init(s) && (forall i :: 0 <= i < |schedule| ==> schedule[i] in s.pc) && k <= |schedule|
    requires Run(s, schedule[..k]).published == Some(t)
    ensures Run(s, schedule).published == Some(t)
    decreases |schedule|
  {
    var n := |schedule| - 1;
    if k == |schedule| {
      assert schedule[..k] == schedule;
    } else {
      assert schedule[..n][..k] == schedule[..k];
      PublishedOnce(s, schedule[..n], k, t);
      LastStepKeepsPublished(s, schedule, t);
    }
  }

  /** When all threads have returned, exactly one list is left, the published one. */
  lemma AllReturned(s: State, schedule: seq<Thread>)
    requires Init(s) && s.pc.Keys != {} && forall i :: 0 <= i < |schedule| ==> schedule[i] in s.pc
    requires forall t :: t in s.pc ==> Returned(Run(s, schedule).pc[t])
    ensures var r := Run(s, schedule); r.published.Some? && r.live == {r.published.value}
  {
    RunKeepsInvariant(s, schedule);
    OneListLeft(Run(s, schedule));
  }

  lemma OneListLeft(r: State)
    requires Invariant(r) && r.pc.Keys != {} && forall t :: t in r.pc.Keys ==> Returned(r.pc[t])
    ensures r.published.Some? && r.live == {r.published.value}
  {
    var t :| t in r.pc.Keys;
    assert Returned(r.pc[t]);
    if r.initialized {
      var w :| IsWinner(r, w);
      assert w in r.pc.Keys;
    }
    forall u ensures u in r.live <==> r.published == Some(u) {
      assert u in r.pc ==> u in r.pc.Keys;
    }
  }

  /** A thread that has returned from init finds the set initialised exactly when no winner is between
      its compare-and-swap and its write. */
  lemma ReturnFindsListExactly(s: State, schedule: seq<Thread>, t: Thread)
    requires Init(s) && forall i :: 0 <= i < |schedule| ==> schedule[i] in s.pc
    requires t in s.pc && Returned(Run(s, schedule).pc[t])
    ensures var r := Run(s, schedule); r.published.Some? <==> !exists w :: w in r.pc && r.pc[w] == Won
  {
    RunKeepsInvariant(s, schedule);
    var r := Run(s, schedule);
    if r.published.Some? {
      forall w | w in r.pc ensures r.pc[w] != Won {
        assert r.pc[w] == Won ==> IsWinner(r, w) && IsWinner(r, r.published.value);
      }
    } else {
      var w :| IsWinner(r, w);
      assert r.pc[w] == Won;
    }
  }

  /** A thread that starts once a list is published neither builds a list nor publishes one. */
  lemma LateThreadSkips(s: State, schedule: seq<Thread>, k: nat, t: Thread)
    requires Init(s) && (forall i :: 0 <= i < |schedule| ==> schedule[i] in s.pc) && k <= |schedule| && t in s.pc
    requires Run(s, schedule[..k]).published.Some? && Late(Run(s, schedule[..k]), t)
    ensures Late(Run(s, schedule), t) && t !in Run(s, schedule).live && Run(s, schedule).published != Some(t)
  {
    StaysLate(s, schedule, k, t);
    RunKeepsInvariant(s, schedule);
    LateOwnsNothing(Run(s, schedule), t);
  }

  /** Not begun, or returned at once. */
  predicate Late(s: State, t: Thread)
  {
    t in s.pc && (s.pc[t] == Start || s.pc[t] == Skipped)
  }

  lemma {:induction false} StaysLate(s: State, schedule: seq<Thread>, k: nat, t: Thread)
    requires Init(s) && (forall i :: 0 <= i < |schedule| ==> schedule[i] in s.pc) && k <= |schedule|
    requires Run(s, schedule[..k]).published.Some? && Late(Run(s, schedule[..k]), t)
    ensures Late(Run(s, schedule), t)
    decreases |schedule|
  {
    var n := |schedule| - 1;
    if k == |schedule| {
      assert schedule[..k] == schedule;
    } else {
      assert schedule[..n][..k] == schedule[..k];
      StaysLate(s, schedule[..n], k, t);
      PublishedOnce(s, schedule[..n], k, Run(s, schedule[..k]).published.value);
      LastStepKeepsLate(s, schedule[..n], schedule[n], t);
      assert schedule == schedule[..n] + [schedule[n]];
    }
  }

  lemma LastStepKeepsLate(s: State, init: seq<Thread>, u: Thread, t: Thread)
    requires (forall i :: 0 <= i < |init| ==> init[i] in s.pc) && u in s.pc
    requires Run(s, init).published.Some? && Late(Run(s, init), t)
    ensures Late(Run(s, init + [u]), t)
  {
    RunSnoc(s, init, u);
    StepKeepsLate(Run(s, init), u, t);
  }

  lemma StepKeepsLate(s: State, u: Thread, t: Thread)
    requires u in s.pc && s.published.Some? && Late(s, t)
    ensures Late(StepOf(s, u), t)
  {
  }

  lemma LateOwnsNothing(s: State, t: Thread)
    requires Invariant(s) && Late(s, t)
    ensures t !in s.live && s.published != Some(t)
  {
  }

  lemma RunSnoc(s: State, schedule: seq<Thread>, t: Thread)
    requires (forall i :: 0 <= i < |schedule| ==> schedule[i] in s.pc) && t in s.pc
    ensures Run(s, schedule + [t]) == StepOf(Run(s, schedule), t)
  {
    assert (schedule + [t])[..|schedule|] == schedule;
  }

  /** So the loser of a race can return from init before the list is there, and the assertion at the
      start of contains fails for it. */
  lemma LoserMayReturnTooEarly()
    ensures var s := State(false, None, {}, map[0 := Start, 1 := Start]);
            var r := Run(s, [0] + [0] + [1] + [1] + [0] + [1] + [1]);
            Init(s) && r.published == None && r.pc == map[0 := Won, 1 := Deleted]
  {
    var s := State(false, None, {}, map[0 := Start, 1 := Start]);
    RunSnoc(s, [], 0);
    assert [] + [0] == [0];
    assert Run(s, [0]) == State(false, None, {}, map[0 := Checked, 1 := Start]);
    RunSnoc(s, [0], 0);
    assert Run(s, [0] + [0]) == State(false, None, {0}, map[0 := Built, 1 := Start]);
    RunSnoc(s, [0] + [0], 1);
    assert Run(s, [0] + [0] + [1]) == State(false, None, {0}, map[0 := Built, 1 := Checked]);
    RunSnoc(s, [0] + [0] + [1], 1);
    assert Run(s, [0] + [0] + [1] + [1]) == State(false, None, {0, 1}, map[0 := Built, 1 := Built]);
    RaceEnds(s, [0] + [0] + [1] + [1]);
  }

  lemma RaceEnds(s: State, schedule: seq<Thread>)
    requires s.pc.Keys == {0, 1} && forall i :: 0 <= i < |schedule| ==> schedule[i] in s.pc
    requires Run(s, schedule) == State(false, None, {0, 1}, map[0 := Built, 1 := Built])
    ensures Run(s, schedule + [0] + [1] + [1]) == State(true, None, {0}, map[0 := Won, 1 := Deleted])
  {
    RunSnoc(s, schedule, 0);
    assert Run(s, schedule + [0]) == State(true, None, {0, 1}, map[0 := Won, 1 := Built]);
    RunSnoc(s, schedule + [0], 1);
    assert Run(s, schedule + [0] + [1]) == State(true, None, {0, 1}, map[0 := Won, 1 := Lost]);
    RunSnoc(s, schedule + [0] + [1], 1);
  }

  // ---------------------------------------------------------------------------
  // The answers
  // ---------------------------------------------------------------------------

  /** A query: names that may be null, and the argument count of a signature if there is one. */
  datatype Query = Query(methodName: Option<string>, className: Option<string>, sigArgs: Option<int>)

  /** The option string each thread was given; each can be parsed. */
  predicate AllParse(strings: map<Thread, string>)
  {
    forall t :: t in strings ==> Holdable(strings[t]) && ParseAll(strings[t], 0).Patterns?
  }

  predicate Selected(ids: seq<MethodID>, q: Query)
  {
    exists i :: 0 <= i < |ids| && Selects(ids[i], q.methodName, q.className, q.sigArgs)
  }

  /** A thread builds its list from its own string, and contains searches the published one. */
  method Ask(strings: map<Thread, string>, s: State, q: Query) returns (found: bool)
    requires AllParse(strings) && s.published.Some? && s.published.value in strings
    ensures found <==> Selected(ParseAll(strings[s.published.value], 0).ids, q)
  {
    var parsed := ParsePatterns(strings[s.published.value]);
    found := Contains(parsed.ids, q.methodName, q.className, q.sigArgs);
  }

  /** From publication on every query is answered by the patterns in the winner's string, whatever the
      other threads were given and however the steps interleave. */
  lemma AnswersAreTheWinners(strings: map<Thread, string>, s: State, schedule: seq<Thread>, k: nat, t: Thread, q: Query)
    requires Init(s) && s.pc.Keys <= strings.Keys && AllParse(strings)
    requires (forall i :: 0 <= i < |schedule| ==> schedule[i] in s.pc) && k <= |schedule|
    requires Run(s, schedule[..k]).published.Some? && IsWinner(Run(s, schedule), t)
    ensures var w := Run(s, schedule[..k]).published.value;
            && w in strings && t in strings
            && (Selected(ParseAll(strings[w], 0).ids, q) <==> Selected(ParseAll(strings[t], 0).ids, q))
  {
    var w := Run(s, schedule[..k]).published.value;
    PublishedOnce(s, schedule, k, w);
    OneWinner(s, schedule, w, t);
  }

  /** When all threads are given one printed list of patterns, then from publication on a query is
      answered by what the patterns mean, whichever thread won. */
  lemma AnswersMeanThePatterns(items: seq<Item>, strings: map<Thread, string>, s: State, schedule: seq<Thread>,
                               method_: string, inClass: string, sigArgs: Option<int>)
    requires Init(s) && s.pc.Keys <= strings.Keys
    requires Printable(items) && WellSeparated(items) && Holdable(PrintAll(items))
    requires forall t :: t in strings ==> strings[t] == PrintAll(items)
    requires (forall i :: 0 <= i < |schedule| ==> schedule[i] in s.pc) && Run(s, schedule).published.Some?
    ensures AllParse(strings) && Run(s, schedule).published.value in strings
    ensures Selected(ParseAll(strings[Run(s, schedule).published.value], 0).ids,
                     Query(Some(method_), Some(inClass), sigArgs)) <==>
            exists i :: 0 <= i < |items| && items[i].pattern.Means(method_, inClass, sigArgs)
  {
    RunKeepsInvariant(s, schedule);
    SetMeansItsPatterns(items, method_, inClass, sigArgs);
  }
}
