/** The status machine of one E3: what its summary depends on, and the shape of its traced phases. */
module Lifecycle {
  import opened Bytes
  import opened E3Ids
  import opened Rewards
  import opened Projection

  datatype Summary = Summary(
    e3Id: string, chainId: nat, status: Status, currentPhase: Phase, eventCount: nat,
    errorCount: nat, warningCount: nat, committeeSize: nat, firstSeenUs: nat, lastSeenUs: nat)

  function CountSeverity(events: seq<EventView>, severity: Severity): nat
  {
    if events == [] then 0
    else CountSeverity(events[..|events| - 1], severity) + if events[|events| - 1].severity == severity then 1 else 0
  }

  function Current(s: E3State): Phase { if s.currentPhase.Some? then s.currentPhase.value else Request }

  function Summarize(s: E3State): Summary
  {
    Summary(s.e3Id, s.chainId, s.status, Current(s), |s.events|,
            CountSeverity(s.events, Error), CountSeverity(s.events, Warn), |s.committee|, s.firstSeenUs, s.lastSeenUs)
  }

  // ---------- each E3 sees only its own events ----------

  /** The events of a stream that are about one E3. */
  function About(events: seq<Event>, e: E3id): seq<Event>
  {
    if events == [] then []
    else
      var last := events[|events| - 1];
      About(events[..|events| - 1], e) + if last.data.E3() == Some(e) then [last] else []
  }

  /** The state of an E3 after its own events alone. */
  function Fold(parse: Parser, id: string, events: seq<Event>): E3State
    requires events != []
    decreases |events|
  {
    var front, last := events[..|events| - 1], events[|events| - 1];
    E3Next(parse, if front == [] then NewE3(id, View(last)) else Fold(parse, id, front), last.data, View(last))
  }

  /** Events about other E3s and operators never show in an E3's state: it is the fold of its own events. */
  lemma {:induction false} StateIsFoldOfOwnEvents(parse: Parser, local: string, events: seq<Event>, e: E3id)
    ensures e.ToString() in Run(parse, local, events).e3s <==> About(events, e) != []
    ensures About(events, e) != [] ==>
              Run(parse, local, events).e3s[e.ToString()] == Fold(parse, e.ToString(), About(events, e))
    decreases |events|
  {
    hide E3Next;
    hide ChainStep;
    if events != [] {
      var front, last := events[..|events| - 1], events[|events| - 1];
      StateIsFoldOfOwnEvents(parse, local, front, e);
      if last.data.E3().Some? {
        PrintedIdsAreUnique(last.data.E3().value, e);
      }
      if last.data.E3() == Some(e) {
        assert About(events, e)[..|About(front, e)|] == About(front, e);
      } else {
        assert About(events, e) == About(front, e);
      }
    }
  }

  // ---------- runs without a failure ----------

  predicate Fails(data: Data)
  {
    data.E3Failed? || data.CommitteeFormationFailed? || (data.E3StageChanged? && data.next == StageFailed)
  }

  predicate Completes(data: Data)
  {
    data.E3RequestComplete? || data.PlaintextOutputPublished? || (data.E3StageChanged? && data.next == StageComplete)
  }

  lemma AffectedKeeps(parse: Parser, s: E3State, d: Data, v: EventView)
    ensures var s' := Affected(parse, s, d, v);
            && s'.events == s.events && s'.e3Id == s.e3Id && s'.chainId == s.chainId
            && s'.firstSeenUs == s.firstSeenUs && s'.lastSeenUs == s.lastSeenUs
  {
    hide NormalizeAddress;
    hide ClaimedUnder;
    hide Zip;
    hide StagePhase;
  }

  lemma AffectedStatus(parse: Parser, s: E3State, d: Data, v: EventView)
    ensures var s' := Affected(parse, s, d, v);
            && s'.status == (if Fails(d) then Failed else if Completes(d) then Complete else s.status)
            && (!Fails(d) ==> s'.currentPhase == s.currentPhase)
  {
    hide NormalizeAddress;
    hide ClaimedUnder;
    hide Zip;
    hide StagePhase;
  }

  /** The state an event of a run meets. */
  function Before(parse: Parser, id: string, events: seq<Event>): E3State
    requires events != []
  {
    var front := events[..|events| - 1];
    if front == [] then NewE3(id, View(events[|events| - 1])) else Fold(parse, id, front)
  }

  lemma FoldStep(parse: Parser, id: string, events: seq<Event>)
    requires events != []
    ensures var last := events[|events| - 1];
            var d, v, s, s' := last.data, View(last), Before(parse, id, events), Fold(parse, id, events);
            && s'.events == s.events + [v]
            && s'.e3Id == s.e3Id && s'.chainId == s.chainId
            && s'.firstSeenUs == (if v.timestampUs < s.firstSeenUs then v.timestampUs else s.firstSeenUs)
            && s'.lastSeenUs == (if v.timestampUs > s.lastSeenUs then v.timestampUs else s.lastSeenUs)
            && s'.status == (if Fails(d) then Failed else if Completes(d) then Complete else s.status)
            && (!Fails(d) ==> s'.currentPhase == Touched(s, v).currentPhase)
  {
    hide Affected;
    hide MaxPhase;
    hide ChainOf;
    hide View;
    hide Fails;
    hide Completes;
    var last := events[|events| - 1];
    var touched := Touched(Before(parse, id, events), View(last));
    AffectedKeeps(parse, touched, last.data, View(last));
    AffectedStatus(parse, touched, last.data, View(last));
  }

  /** The largest phase of some events, if any of them carries one. */
  ghost predicate IsMaxPhase(events: seq<Event>, phase: Option<Phase>)
  {
    && (phase.None? ==> forall x :: x in events ==> PhaseOf(x.data).None?)
    && (phase.Some? ==> exists x :: x in events && PhaseOf(x.data) == phase)
    && (phase.Some? ==> forall x :: x in events && PhaseOf(x.data).Some? ==>
         PhaseOf(x.data).value.Rank() <= phase.value.Rank())
  }

  ghost predicate IsFirst(events: seq<Event>, t: nat)
  {
    (exists x :: x in events && x.timestampUs == t) && forall x :: x in events ==> t <= x.timestampUs
  }

  ghost predicate IsLast(events: seq<Event>, t: nat)
  {
    (exists x :: x in events && x.timestampUs == t) && forall x :: x in events ==> x.timestampUs <= t
  }

  function CountEvents(events: seq<Event>, severity: Severity): nat
  {
    if events == [] then 0
    else CountEvents(events[..|events| - 1], severity)
         + if SeverityOf(events[|events| - 1].data) == severity then 1 else 0
  }

  predicate NoFailure(events: seq<Event>)
  {
    forall i :: 0 <= i < |events| ==> !Fails(events[i].data)
  }

  predicate SomeCompletes(events: seq<Event>)
  {
    exists i :: 0 <= i < |events| && Completes(events[i].data)
  }

  predicate SomeFails(events: seq<Event>)
  {
    exists i :: 0 <= i < |events| && Fails(events[i].data)
  }

  lemma InSnoc(front: seq<Event>, last: Event)
    ensures forall x :: x in front + [last] <==> x in front || x == last
  {
  }

  lemma CountSeveritySnoc(events: seq<EventView>, last: EventView, severity: Severity)
    ensures CountSeverity(events + [last], severity)
            == CountSeverity(events, severity) + if last.severity == severity then 1 else 0
    ensures CountSeverity([], severity) == 0
  {
    assert (events + [last])[..|events|] == events;
  }

  lemma {:induction false} CountsOfRun(parse: Parser, id: string, events: seq<Event>, severity: Severity)
    requires events != []
    ensures var s := Fold(parse, id, events);
            |s.events| == |events| && CountSeverity(s.events, severity) == CountEvents(events, severity)
    decreases |events|
  {
    hide Fold;
    hide SeverityOf;
    hide PhaseOf;
    hide ChainOf;
    hide Touched;
    hide CountSeverity;
    var front, last := events[..|events| - 1], events[|events| - 1];
    var before := Before(parse, id, events);
    FoldStep(parse, id, events);
    CountSeveritySnoc(before.events, View(last), severity);
    if front != [] {
      CountsOfRun(parse, id, front, severity);
    }
  }

  lemma FirstSnoc(front: seq<Event>, last: Event, t: nat)
    requires front == [] || IsFirst(front, t)
    ensures IsFirst(front + [last], if front == [] || last.timestampUs < t then last.timestampUs else t)
  {
    InSnoc(front, last);
    assert last in front + [last];
  }

  lemma LastSnoc(front: seq<Event>, last: Event, t: nat)
    requires front == [] || IsLast(front, t)
    ensures IsLast(front + [last], if front == [] || last.timestampUs > t then last.timestampUs else t)
  {
    InSnoc(front, last);
    assert last in front + [last];
  }

  /** The identity and the seen times of any run, told by the events alone. */
  lemma {:induction false} TimesOfRun(parse: Parser, id: string, events: seq<Event>)
    requires events != []
    ensures var s := Fold(parse, id, events);
            && IsFirst(events, s.firstSeenUs) && IsLast(events, s.lastSeenUs)
            && s.e3Id == id && s.chainId == ChainOf(id)
    decreases |events|
  {
    hide Fold;
    hide ChainOf;
    hide IsFirst;
    hide IsLast;
    var front, last := events[..|events| - 1], events[|events| - 1];
    FoldStep(parse, id, events);
    assert events == front + [last];
    if front != [] {
      TimesOfRun(parse, id, front);
    }
    var before := Before(parse, id, events);
    FirstSnoc(front, last, before.firstSeenUs);
    LastSnoc(front, last, before.lastSeenUs);
  }

  lemma {:induction false} PhaseOfRun(parse: Parser, id: string, events: seq<Event>)
    requires events != [] && NoFailure(events)
    ensures var s := Fold(parse, id, events);
            && IsMaxPhase(events, s.currentPhase)
            && s.status == if SomeCompletes(events) then Complete else Active
    decreases |events|
  {
    hide Fold;
    hide PhaseOf;
    hide ChainOf;
    hide IsMaxPhase;
    var front, last := events[..|events| - 1], events[|events| - 1];
    var before := Before(parse, id, events);
    FoldStep(parse, id, events);
    assert events == front + [last];
    assert !Fails(last.data);
    if front == [] {
      NoPhaseYet();
    } else {
      assert NoFailure(front);
      PhaseOfRun(parse, id, front);
    }
    CompletesSnoc(front, last);
    MaxPhaseSnoc(front, last, before.currentPhase, Touched(before, View(last)).currentPhase);
  }

  lemma NoPhaseYet()
    ensures IsMaxPhase([], None)
  {
  }

  lemma CompletesSnoc(front: seq<Event>, last: Event)
    ensures SomeCompletes(front + [last]) <==> SomeCompletes(front) || Completes(last.data)
    ensures SomeFails(front + [last]) <==> SomeFails(front) || Fails(last.data)
  {
    var all := front + [last];
    assert all[|front|] == last;
    if SomeCompletes(front) {
      var i :| 0 <= i < |front| && Completes(front[i].data);
      assert all[i] == front[i];
    }
    if SomeFails(front) {
      var i :| 0 <= i < |front| && Fails(front[i].data);
      assert all[i] == front[i];
    }
  }

  lemma MaxPhaseSnoc(front: seq<Event>, last: Event, before: Option<Phase>, after: Option<Phase>)
    requires IsMaxPhase(front, before)
    requires after == if PhaseOf(last.data).None? then before
                      else Some(if before.None? then PhaseOf(last.data).value
                                else MaxPhase(before.value, PhaseOf(last.data).value))
    ensures IsMaxPhase(front + [last], after)
  {
    hide PhaseOf;
    InSnoc(front, last);
    if after.Some? && after != before {
      assert last in front + [last] && PhaseOf(last.data) == after;
    }
  }

  // ---------- order does not matter ----------

  lemma SamePhase(a: Phase, b: Phase)
    requires a.Rank() == b.Rank()
    ensures a == b
  {
  }

  lemma SameElements<T>(a: seq<T>, b: seq<T>)
    requires multiset(a) == multiset(b)
    ensures |a| == |b|
    ensures forall x :: x in a <==> x in b
  {
    assert |multiset(a)| == |a| && |multiset(b)| == |b|;
    forall x ensures x in a <==> x in b {
      assert x in a <==> x in multiset(a);
      assert x in b <==> x in multiset(b);
    }
  }

  lemma {:induction false} CountAppend(a: seq<Event>, b: seq<Event>, severity: Severity)
    ensures CountEvents(a + b, severity) == CountEvents(a, severity) + CountEvents(b, severity)
    decreases |b|
  {
    hide SeverityOf;
    if b == [] {
      assert a + b == a;
    } else {
      var n := |b| - 1;
      assert (a + b)[..|a + b| - 1] == a + b[..n];
      CountAppend(a, b[..n], severity);
    }
  }

  lemma CountSplit(front: seq<Event>, x: Event, back: seq<Event>, severity: Severity)
    ensures CountEvents(front + [x] + back, severity) == CountEvents(front + back + [x], severity)
  {
    hide CountEvents;
    CountAppend(front + [x], back, severity);
    CountAppend(front, [x], severity);
    CountAppend(front + back, [x], severity);
    CountAppend(front, back, severity);
  }

  lemma RemoveOne(front: seq<Event>, x: Event, back: seq<Event>, other: seq<Event>)
    requires multiset(other + [x]) == multiset(front + [x] + back)
    ensures multiset(other) == multiset(front + back)
  {
    var whole := multiset(front) + multiset{x} + multiset(back);
    assert multiset(other) + multiset{x} == whole;
    assert multiset(other) == whole - multiset{x} == multiset(front) + multiset(back);
  }

  lemma {:induction false} CountIsOrderFree(a: seq<Event>, b: seq<Event>, severity: Severity)
    requires multiset(a) == multiset(b)
    ensures CountEvents(a, severity) == CountEvents(b, severity)
    decreases |a|
  {
    hide CountEvents;
    SameElements(a, b);
    if a != [] {
      var n := |a| - 1;
      var x := a[n];
      assert x in b;
      var i :| 0 <= i < |b| && b[i] == x;
      var front, back := b[..i], b[i + 1..];
      assert a == a[..n] + [x] && b == front + [x] + back;
      RemoveOne(front, x, back, a[..n]);
      CountIsOrderFree(a[..n], front + back, severity);
      CountAppend(a[..n], [x], severity);
      CountAppend(front + back, [x], severity);
      CountSplit(front, x, back, severity);
    } else {
      assert b == a;
    }
  }

  lemma CompletesIsOrderFree(a: seq<Event>, b: seq<Event>)
    requires multiset(a) == multiset(b)
    ensures SomeCompletes(a) ==> SomeCompletes(b)
    ensures SomeFails(a) ==> SomeFails(b)
  {
    SameElements(a, b);
    if SomeCompletes(a) {
      var i :| 0 <= i < |a| && Completes(a[i].data);
      assert a[i] in b;
      var j :| 0 <= j < |b| && b[j] == a[i];
    }
    if SomeFails(a) {
      var i :| 0 <= i < |a| && Fails(a[i].data);
      assert a[i] in b;
      var j :| 0 <= j < |b| && b[j] == a[i];
    }
  }

  /** Seen times and event, error and warning counts never depend on the order of the events. */
  lemma TimesAndCountsAreOrderFree(parse: Parser, id: string, a: seq<Event>, b: seq<Event>)
    requires a != [] && b != [] && multiset(a) == multiset(b)
    ensures var x, y := Summarize(Fold(parse, id, a)), Summarize(Fold(parse, id, b));
            && x.e3Id == y.e3Id && x.chainId == y.chainId
            && x.firstSeenUs == y.firstSeenUs && x.lastSeenUs == y.lastSeenUs
            && x.eventCount == y.eventCount && x.errorCount == y.errorCount && x.warningCount == y.warningCount
  {
    hide Fold;
    hide CountEvents;
    hide CountSeverity;
    TimesOfRun(parse, id, a);
    TimesOfRun(parse, id, b);
    CountsOfRun(parse, id, a, Error);
    CountsOfRun(parse, id, b, Error);
    CountsOfRun(parse, id, a, Warn);
    CountsOfRun(parse, id, b, Warn);
    SameElements(a, b);
    CountIsOrderFree(a, b, Error);
    CountIsOrderFree(a, b, Warn);
  }

  lemma PhaseIsOrderFree(parse: Parser, id: string, a: seq<Event>, b: seq<Event>)
    requires a != [] && b != [] && multiset(a) == multiset(b) && NoFailure(a)
    ensures NoFailure(b)
    ensures Fold(parse, id, a).status == Fold(parse, id, b).status
    ensures Fold(parse, id, a).currentPhase == Fold(parse, id, b).currentPhase
  {
    hide Fold;
    hide PhaseOf;
    SameElements(a, b);
    CompletesIsOrderFree(a, b);
    CompletesIsOrderFree(b, a);
    forall i | 0 <= i < |b| ensures !Fails(b[i].data) {
      assert b[i] in a;
      var j :| 0 <= j < |a| && a[j] == b[i];
    }
    PhaseOfRun(parse, id, a);
    PhaseOfRun(parse, id, b);
    var p, q := Fold(parse, id, a).currentPhase, Fold(parse, id, b).currentPhase;
    if p.Some? && q.Some? {
      var x :| x in a && PhaseOf(x.data) == p;
      var y :| y in b && PhaseOf(y.data) == q;
      assert x in b && y in a;
      SamePhase(p.value, q.value);
    }
  }

  // ---------- with failures, the order can matter ----------

  /** The status is the one the last failing or completing event set. */
  lemma StatusSnoc(parse: Parser, id: string, front: seq<Event>, last: Event)
    ensures Fold(parse, id, front + [last]).status ==
            if Fails(last.data) then Failed else if Completes(last.data) then Complete
            else if front == [] then Active else Fold(parse, id, front).status
  {
    hide Fold;
    hide ChainOf;
    var events := front + [last];
    assert events[..|front|] == front;
    FoldStep(parse, id, events);
  }

  lemma {:induction false} StatusWithoutClash(parse: Parser, id: string, events: seq<Event>)
    requires events != [] && !(SomeFails(events) && SomeCompletes(events))
    ensures Fold(parse, id, events).status
            == if SomeFails(events) then Failed else if SomeCompletes(events) then Complete else Active
    decreases |events|
  {
    hide Fold;
    var front, last := events[..|events| - 1], events[|events| - 1];
    assert events == front + [last];
    CompletesSnoc(front, last);
    StatusSnoc(parse, id, front, last);
    if front != [] {
      StatusWithoutClash(parse, id, front);
    }
  }

  /** The same events with the one at position `i` moved to the end. */
  function MovedLast(events: seq<Event>, i: nat): seq<Event>
    requires i < |events|
  {
    events[..i] + events[i + 1..] + [events[i]]
  }

  lemma MovedLastPermutes(events: seq<Event>, i: nat)
    requires i < |events|
    ensures multiset(MovedLast(events, i)) == multiset(events)
  {
    assert events == events[..i] + [events[i]] + events[i + 1..];
  }

  /**
   * The status is the same for every order of the events exactly when they do not contain both a
   * failing and a completing one.
   */
  lemma StatusIsOrderFreeExactly(parse: Parser, id: string, events: seq<Event>)
    requires events != []
    ensures (forall other: seq<Event> :: other != [] && multiset(other) == multiset(events) ==>
               Fold(parse, id, other).status == Fold(parse, id, events).status)
            <==> !(SomeFails(events) && SomeCompletes(events))
  {
    hide Fold;
    if SomeFails(events) && SomeCompletes(events) {
      var i :| 0 <= i < |events| && Fails(events[i].data);
      var j :| 0 <= j < |events| && Completes(events[j].data);
      MovedLastPermutes(events, i);
      MovedLastPermutes(events, j);
      StatusSnoc(parse, id, events[..i] + events[i + 1..], events[i]);
      StatusSnoc(parse, id, events[..j] + events[j + 1..], events[j]);
      assert Fold(parse, id, MovedLast(events, i)).status == Failed;
      assert Fold(parse, id, MovedLast(events, j)).status == Complete;
    } else {
      forall other: seq<Event> | other != [] && multiset(other) == multiset(events)
        ensures Fold(parse, id, other).status == Fold(parse, id, events).status
      {
        CompletesIsOrderFree(events, other);
        CompletesIsOrderFree(other, events);
        StatusWithoutClash(parse, id, events);
        StatusWithoutClash(parse, id, other);
      }
    }
  }

  // ---------- the size of the committee ----------

  /** The size of the committee an event finalizes, if it does. */
  function Finalized(data: Data): Option<nat>
  {
    if data.CommitteeFinalized? then Some(|data.committee|) else None
  }

  /** The size of the committee an event publishes; publishing none has no effect. */
  function Published(data: Data): nat { if data.CommitteePublished? then |data.nodes| else 0 }

  function CommitteeSize(events: seq<Event>): nat
  {
    if events == [] then 0
    else
      var before, data := CommitteeSize(events[..|events| - 1]), events[|events| - 1].data;
      if Finalized(data).Some? then Finalized(data).value else if before == 0 then Published(data) else before
  }

  lemma AffectedCommittee(parse: Parser, s: E3State, d: Data, v: EventView)
    ensures var s' := Affected(parse, s, d, v);
            |s'.committee| == if Finalized(d).Some? then Finalized(d).value
                              else if |s.committee| == 0 then Published(d) else |s.committee|
  {
    hide NormalizeAddress;
    hide ClaimedUnder;
    hide Zip;
    hide StagePhase;
  }

  lemma {:induction false} CommitteeOfRun(parse: Parser, id: string, events: seq<Event>)
    requires events != []
    ensures |Fold(parse, id, events).committee| == CommitteeSize(events)
    decreases |events|
  {
    hide Affected;
    hide View;
    hide Finalized;
    hide Published;
    hide ChainOf;
    var front, last := events[..|events| - 1], events[|events| - 1];
    if front != [] {
      CommitteeOfRun(parse, id, front);
    }
    var before := if front == [] then NewE3(id, View(last)) else Fold(parse, id, front);
    AffectedCommittee(parse, Touched(before, View(last)), last.data, View(last));
  }

  /**
   * All finalized committees have one size, an empty one is not finalized beside a published one, and
   * where none is finalized all published ones have one size.
   */
  ghost predicate SteadyCommittee(events: seq<Event>)
  {
    && (forall x, y :: x in events && y in events && Finalized(x.data).Some? && Finalized(y.data).Some? ==>
          Finalized(x.data) == Finalized(y.data))
    && (forall x, y :: x in events && y in events && Finalized(x.data) == Some(0) ==> Published(y.data) == 0)
    && ((exists x :: x in events && Finalized(x.data).Some?) ||
        (forall x, y :: x in events && y in events && Published(x.data) > 0 && Published(y.data) > 0 ==>
           Published(x.data) == Published(y.data)))
  }

  lemma SizeSnoc(front: seq<Event>, last: Event)
    ensures CommitteeSize(front + [last]) ==
            if Finalized(last.data).Some? then Finalized(last.data).value
            else if CommitteeSize(front) == 0 then Published(last.data) else CommitteeSize(front)
  {
    assert (front + [last])[..|front|] == front;
  }

  lemma {:induction false} FinalizedSize(events: seq<Event>, x: Event)
    requires x in events && Finalized(x.data).Some? && Finalized(x.data).value > 0
    requires forall y :: y in events && Finalized(y.data).Some? ==> Finalized(y.data) == Finalized(x.data)
    ensures CommitteeSize(events) == Finalized(x.data).value
  {
    hide Finalized;
    hide Published;
    var front, last := events[..|events| - 1], events[|events| - 1];
    assert events == front + [last];
    InSnoc(front, last);
    if Finalized(last.data).None? {
      FinalizedSize(front, x);
    }
  }

  lemma {:induction false} NothingNamed(events: seq<Event>)
    requires forall y :: y in events ==>
               Published(y.data) == 0 && (Finalized(y.data).Some? ==> Finalized(y.data).value == 0)
    ensures CommitteeSize(events) == 0
  {
    hide Finalized;
    hide Published;
    if events != [] {
      var front, last := events[..|events| - 1], events[|events| - 1];
      assert events == front + [last];
      InSnoc(front, last);
      NothingNamed(front);
    }
  }

  lemma {:induction false} PublishedSize(events: seq<Event>, x: Event)
    requires x in events && Published(x.data) > 0
    requires forall y :: y in events ==> Finalized(y.data).None?
    requires forall y :: y in events && Published(y.data) > 0 ==> Published(y.data) == Published(x.data)
    ensures CommitteeSize(events) == Published(x.data)
  {
    hide Finalized;
    hide Published;
    var front, last := events[..|events| - 1], events[|events| - 1];
    assert events == front + [last];
    InSnoc(front, last);
    if x in front {
      PublishedSize(front, x);
    } else if exists y :: y in front && Published(y.data) > 0 {
      var y :| y in front && Published(y.data) > 0;
      PublishedSize(front, y);
    } else {
      NothingNamed(front);
    }
  }

  lemma SteadySize(a: seq<Event>, b: seq<Event>)
    requires SteadyCommittee(a) && multiset(a) == multiset(b)
    ensures CommitteeSize(a) == CommitteeSize(b)
  {
    hide Finalized;
    hide Published;
    hide CommitteeSize;
    SameElements(a, b);
    if x :| x in a && Finalized(x.data).Some? && Finalized(x.data).value > 0 {
      FinalizedSize(a, x);
      FinalizedSize(b, x);
    } else if exists x :: x in a && Finalized(x.data).Some? {
      NothingNamed(a);
      NothingNamed(b);
    } else if x :| x in a && Published(x.data) > 0 {
      PublishedSize(a, x);
      PublishedSize(b, x);
    } else {
      NothingNamed(a);
      NothingNamed(b);
    }
  }

  /** The same events with the one at position `i` moved to the front. */
  function MovedFirst(events: seq<Event>, i: nat): seq<Event>
    requires i < |events|
  {
    [events[i]] + (events[..i] + events[i + 1..])
  }

  lemma MovedFirstPermutes(events: seq<Event>, i: nat)
    requires i < |events|
    ensures multiset(MovedFirst(events, i)) == multiset(events)
  {
    assert events == events[..i] + [events[i]] + events[i + 1..];
  }

  lemma {:induction false} FirstPublishedWins(first: Event, rest: seq<Event>)
    requires Published(first.data) > 0 && Finalized(first.data).None?
    requires forall y :: y in rest ==> Finalized(y.data).None?
    ensures CommitteeSize([first] + rest) == Published(first.data)
    decreases |rest|
  {
    hide Finalized;
    hide Published;
    if rest == [] {
      SizeSnoc([], first);
      assert [first] + rest == [] + [first];
    } else {
      var front, last := rest[..|rest| - 1], rest[|rest| - 1];
      FirstPublishedWins(first, front);
      SizeSnoc([first] + front, last);
      assert [first] + rest == [first] + front + [last];
    }
  }

  lemma LastFinalizedWins(events: seq<Event>, i: nat)
    requires i < |events| && Finalized(events[i].data).Some?
    ensures multiset(MovedLast(events, i)) == multiset(events)
    ensures CommitteeSize(MovedLast(events, i)) == Finalized(events[i].data).value
  {
    MovedLastPermutes(events, i);
    SizeSnoc(events[..i] + events[i + 1..], events[i]);
  }

  /** A published committee right behind an empty finalized one. */
  lemma PublishedAfterEmpty(events: seq<Event>, i: nat, j: nat) returns (other: seq<Event>)
    requires i < |events| && j < |events| && Finalized(events[i].data) == Some(0) && Published(events[j].data) > 0
    ensures multiset(other) == multiset(events) && CommitteeSize(other) > 0
  {
    hide CommitteeSize;
    var moved := MovedLast(events, i);
    LastFinalizedWins(events, i);
    var n := |moved| - 1;
    SameElements(moved, events);
    assert events[j] in moved;
    var k :| 0 <= k < |moved| && moved[k] == events[j];
    assert k < n;
    other := MovedLast(moved, k);
    MovedLastPermutes(moved, k);
    var front := moved[..k] + moved[k + 1..];
    assert front == front[..n - 1] + [moved[n]];
    SizeSnoc(front[..n - 1], moved[n]);
    SizeSnoc(front, moved[k]);
  }

  /** Two orders that disagree, for events that are not steady. */
  lemma UnsteadyOrders(events: seq<Event>) returns (a: seq<Event>, b: seq<Event>)
    requires !SteadyCommittee(events)
    ensures multiset(a) == multiset(events) && multiset(b) == multiset(events)
    ensures CommitteeSize(a) != CommitteeSize(b)
  {
    hide CommitteeSize;
    hide MovedLast;
    hide MovedFirst;
    if x, y :| x in events && y in events && Finalized(x.data).Some? && Finalized(y.data).Some? &&
               Finalized(x.data) != Finalized(y.data)
    {
      var i :| 0 <= i < |events| && events[i] == x;
      var j :| 0 <= j < |events| && events[j] == y;
      LastFinalizedWins(events, i);
      LastFinalizedWins(events, j);
      a, b := MovedLast(events, i), MovedLast(events, j);
    } else if x, y :| x in events && y in events && Finalized(x.data) == Some(0) && Published(y.data) > 0 {
      var i :| 0 <= i < |events| && events[i] == x;
      var j :| 0 <= j < |events| && events[j] == y;
      LastFinalizedWins(events, i);
      a := MovedLast(events, i);
      b := PublishedAfterEmpty(events, i, j);
    } else {
      var x, y :| x in events && y in events && Published(x.data) > 0 && Published(y.data) > 0 &&
                  Published(x.data) != Published(y.data);
      a := FirstPublished(events, x);
      b := FirstPublished(events, y);
    }
  }

  lemma FirstPublished(events: seq<Event>, x: Event) returns (other: seq<Event>)
    requires x in events && Published(x.data) > 0
    requires forall y :: y in events ==> Finalized(y.data).None?
    ensures multiset(other) == multiset(events) && CommitteeSize(other) == Published(x.data)
  {
    hide CommitteeSize;
    hide Published;
    var i :| 0 <= i < |events| && events[i] == x;
    MovedFirstPermutes(events, i);
    FirstPublishedWins(x, events[..i] + events[i + 1..]);
    other := MovedFirst(events, i);
  }

  /** The size of the committee is the same for every order of the events exactly when they are steady. */
  lemma CommitteeIsOrderFreeExactly(parse: Parser, id: string, events: seq<Event>)
    requires events != []
    ensures (forall other: seq<Event> :: other != [] && multiset(other) == multiset(events) ==>
               |Fold(parse, id, other).committee| == |Fold(parse, id, events).committee|)
            <==> SteadyCommittee(events)
  {
    hide Fold;
    hide CommitteeSize;
    hide SteadyCommittee;
    CommitteeOfRun(parse, id, events);
    if SteadyCommittee(events) {
      forall other: seq<Event> | other != [] && multiset(other) == multiset(events)
        ensures |Fold(parse, id, other).committee| == |Fold(parse, id, events).committee|
      {
        CommitteeOfRun(parse, id, other);
        SteadySize(events, other);
      }
    } else {
      var a, b := UnsteadyOrders(events);
      SameElements(a, events);
      SameElements(b, events);
      CommitteeOfRun(parse, id, a);
      CommitteeOfRun(parse, id, b);
    }
  }

  // ---------- the whole summary ----------

  /**
   * Two streams whose events about an E3 are the same up to order, none of them a failure, give it the
   * same summary, whatever else the streams contain; the size of its committee is included exactly where
   * the events leave no choice about it.
   */
  lemma SummaryIsOrderFree(parse: Parser, local: string, a: seq<Event>, b: seq<Event>, e: E3id)
    requires multiset(About(a, e)) == multiset(About(b, e)) && About(a, e) != [] && NoFailure(About(a, e))
    ensures e.ToString() in Run(parse, local, a).e3s && e.ToString() in Run(parse, local, b).e3s
    ensures var x := Summarize(Run(parse, local, a).e3s[e.ToString()]);
            var y := Summarize(Run(parse, local, b).e3s[e.ToString()]);
            && x == y.(committeeSize := x.committeeSize)
            && (SteadyCommittee(About(a, e)) ==> x == y)
  {
    hide Run;
    hide About;
    hide Fold;
    hide CountSeverity;
    hide SteadyCommittee;
    SameElements(About(a, e), About(b, e));
    assert |About(b, e)| > 0;
    StateIsFoldOfOwnEvents(parse, local, a, e);
    StateIsFoldOfOwnEvents(parse, local, b, e);
    TimesAndCountsAreOrderFree(parse, e.ToString(), About(a, e), About(b, e));
    PhaseIsOrderFree(parse, e.ToString(), About(a, e), About(b, e));
    CommitteeIsOrderFreeExactly(parse, e.ToString(), About(a, e));
  }
}
