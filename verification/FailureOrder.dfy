/** The current phase of an E3 with failures: when it depends on the order of the events, and when not. */
module FailureOrder {
  import opened Bytes
  import opened E3Ids
  import opened Rewards
  import opened Projection
  import opened Lifecycle

  /** A failed stage puts the phase back to that of the stage before, whatever was reached. */
  predicate SetsBack(d: Data) { d.E3StageChanged? && d.next == StageFailed }

  function BackTo(d: Data): Phase
    requires SetsBack(d)
  {
    StagePhase(d.previous)
  }

  /** How far an event says the E3 is; below everything if it says nothing. */
  function Level(phase: Option<Phase>): int { if phase.Some? then phase.value.Rank() else -1 }

  function Top(d: Data): int { Level(PhaseOf(d)) }

  /** What the current phase depends on: whether the E3 counts as failed, and the phase itself. */
  datatype Mark = Mark(failed: bool, phase: Option<Phase>)

  function NextMark(m: Mark, d: Data): Mark
  {
    if SetsBack(d) then Mark(true, Some(BackTo(d)))
    else Mark(if Fails(d) then true else if Completes(d) then false else m.failed,
              if m.failed || Top(d) <= Level(m.phase) then m.phase else PhaseOf(d))
  }

  function MarkOf(events: seq<Event>): Mark
  {
    if events == [] then Mark(false, None) else NextMark(MarkOf(events[..|events| - 1]), events[|events| - 1].data)
  }

  lemma MarkSnoc(front: seq<Event>, last: Event)
    ensures MarkOf(front + [last]) == NextMark(MarkOf(front), last.data)
    ensures MarkOf([]) == Mark(false, None)
  {
    assert (front + [last])[..|front|] == front;
  }

  lemma AffectedPhase(parse: Parser, s: E3State, d: Data, v: EventView)
    ensures Affected(parse, s, d, v).currentPhase == if SetsBack(d) then Some(BackTo(d)) else s.currentPhase
  {
    hide NormalizeAddress;
    hide ClaimedUnder;
    hide Zip;
    hide StagePhase;
  }

  lemma {:induction false} MarkOfRun(parse: Parser, id: string, events: seq<Event>)
    requires events != []
    ensures var s := Fold(parse, id, events);
            MarkOf(events) == Mark(s.status == Failed, s.currentPhase)
    decreases |events|
  {
    hide Affected;
    hide ChainOf;
    hide PhaseOf;
    hide SeverityOf;
    hide Fails;
    hide Completes;
    hide SetsBack;
    var front, last := events[..|events| - 1], events[|events| - 1];
    if front != [] {
      MarkOfRun(parse, id, front);
    }
    var before := if front == [] then NewE3(id, View(last)) else Fold(parse, id, front);
    var touched := Touched(before, View(last));
    assert front == [] ==> MarkOf(front) == Mark(false, None);
    AffectedStatus(parse, touched, last.data, View(last));
    AffectedPhase(parse, touched, last.data, View(last));
    SetBackFails(last.data);
    TouchedLevel(before, View(last));
  }

  lemma SetBackFails(d: Data)
    ensures SetsBack(d) ==> Fails(d)
    ensures Completes(d) ==> !Fails(d) && PhaseOf(d) == Some(Settlement)
    ensures Fails(d) ==> PhaseOf(d).Some?
  {
  }

  lemma TouchedLevel(s: E3State, v: EventView)
    ensures Touched(s, v).status == s.status
    ensures Touched(s, v).currentPhase ==
            if s.status == Failed || Level(v.phase) <= Level(s.currentPhase) then s.currentPhase else v.phase
  {
  }

  // ---------- kinds of events ----------

  /** A failure below the last phase that does not set back, a completion, or anything else. */
  datatype Kind = LowFailing | Completing | Remaining

  function KindOf(d: Data): Kind
  {
    if Completes(d) then Completing else if Fails(d) && !SetsBack(d) && Top(d) < 7 then LowFailing else Remaining
  }

  function Keep(events: seq<Event>, kind: Kind): seq<Event>
  {
    if events == [] then []
    else
      var last := events[|events| - 1];
      Keep(events[..|events| - 1], kind) + if KindOf(last.data) == kind then [last] else []
  }

  lemma KeepSnoc(front: seq<Event>, last: Event, kind: Kind)
    ensures Keep(front + [last], kind) == Keep(front, kind) + if KindOf(last.data) == kind then [last] else []
  {
    assert (front + [last])[..|front|] == front;
  }

  lemma {:induction false} KeepCounts(events: seq<Event>, kind: Kind, x: Event)
    ensures multiset(Keep(events, kind))[x] == if KindOf(x.data) == kind then multiset(events)[x] else 0
  {
    hide KindOf;
    if events != [] {
      var front, last := events[..|events| - 1], events[|events| - 1];
      assert events == front + [last];
      KeepSnoc(front, last, kind);
      KeepCounts(front, kind, x);
    }
  }

  lemma KeepIsOrderFree(a: seq<Event>, b: seq<Event>, kind: Kind)
    requires multiset(a) == multiset(b)
    ensures |Keep(a, kind)| == |Keep(b, kind)|
  {
    hide Keep;
    hide KindOf;
    forall x: Event ensures multiset(Keep(a, kind))[x] == multiset(Keep(b, kind))[x] {
      KeepCounts(a, kind, x);
      KeepCounts(b, kind, x);
    }
    assert multiset(Keep(a, kind)) == multiset(Keep(b, kind));
    SameElements(Keep(a, kind), Keep(b, kind));
  }

  lemma KeepMembers(events: seq<Event>, kind: Kind)
    ensures forall x :: x in Keep(events, kind) <==> x in events && KindOf(x.data) == kind
  {
    hide Keep;
    hide KindOf;
    forall x ensures x in Keep(events, kind) <==> x in events && KindOf(x.data) == kind {
      KeepCounts(events, kind, x);
      assert x in Keep(events, kind) <==> x in multiset(Keep(events, kind));
      assert x in events <==> x in multiset(events);
    }
  }

  lemma KindsPartition(events: seq<Event>)
    ensures multiset(Keep(events, LowFailing)) + multiset(Keep(events, Completing)) + multiset(Keep(events, Remaining))
            == multiset(events)
  {
    hide Keep;
    hide KindOf;
    forall x: Event
      ensures multiset(Keep(events, LowFailing))[x] + multiset(Keep(events, Completing))[x] +
              multiset(Keep(events, Remaining))[x] == multiset(events)[x]
    {
      KeepCounts(events, LowFailing, x);
      KeepCounts(events, Completing, x);
      KeepCounts(events, Remaining, x);
    }
  }

  // ---------- the condition ----------

  ghost predicate SomeSetBack(events: seq<Event>) { exists x :: x in events && SetsBack(x.data) }

  ghost predicate OneSetBack(events: seq<Event>, to: Phase)
  {
    forall x :: x in events && SetsBack(x.data) ==> BackTo(x.data) == to
  }

  ghost predicate NoneCompletes(events: seq<Event>) { forall x :: x in events ==> !Completes(x.data) }

  /** Nothing but a completion or a set back says more than this phase. */
  ghost predicate NothingAbove(events: seq<Event>, to: Phase)
  {
    forall x :: x in events && !SetsBack(x.data) && !Completes(x.data) ==> Top(x.data) <= to.Rank()
  }

  /**
   * Failures that set back all go back to one phase; an E3 may leave it by completing only if that phase
   * is the last one, or if it completes once and nothing else goes beyond. Without such failures, a
   * failure with no completion must be as far as any event, and completions must outnumber the failures
   * below the last phase.
   */
  ghost predicate SteadyPhase(events: seq<Event>)
  {
    if SomeSetBack(events) then
      exists to ::
        && OneSetBack(events, to)
        && (NoneCompletes(events) || to == Settlement ||
            (|Keep(events, Completing)| == 1 && NothingAbove(events, to)))
    else if NoneCompletes(events) then
      forall f, x :: f in events && x in events && Fails(f.data) ==> Top(x.data) <= Top(f.data)
    else
      SomeFails(events) ==> |Keep(events, LowFailing)| < |Keep(events, Completing)|
  }

  // ---------- steady events have one outcome ----------

  lemma {:induction false} StaysBack(events: seq<Event>, to: Phase)
    requires SomeSetBack(events) && OneSetBack(events, to) && NoneCompletes(events)
    ensures MarkOf(events) == Mark(true, Some(to))
  {
    hide SetsBack;
    hide PhaseOf;
    hide Fails;
    hide Completes;
    var front, last := events[..|events| - 1], events[|events| - 1];
    assert events == front + [last];
    InSnoc(front, last);
    MarkSnoc(front, last);
    if !SetsBack(last.data) {
      StaysBack(front, to);
    }
  }

  lemma LevelBound(phase: Option<Phase>)
    ensures -1 <= Level(phase) <= 7
    ensures Level(phase) == 7 ==> phase == Some(Settlement)
  {
  }

  lemma {:induction false} StaysSettled(events: seq<Event>)
    requires SomeSetBack(events) && OneSetBack(events, Settlement)
    ensures MarkOf(events).phase == Some(Settlement)
  {
    hide SetsBack;
    hide PhaseOf;
    hide Fails;
    hide Completes;
    var front, last := events[..|events| - 1], events[|events| - 1];
    assert events == front + [last];
    InSnoc(front, last);
    MarkSnoc(front, last);
    LevelBound(PhaseOf(last.data));
    if !SetsBack(last.data) {
      StaysSettled(front);
    }
  }

  lemma {:induction false} StaysOnceCompleted(events: seq<Event>, to: Phase)
    requires SomeSetBack(events) && OneSetBack(events, to) && NothingAbove(events, to)
    requires |Keep(events, Completing)| <= 1
    ensures MarkOf(events).phase == Some(to) && (MarkOf(events).failed || |Keep(events, Completing)| == 1)
  {
    hide SetsBack;
    hide PhaseOf;
    hide Fails;
    hide Completes;
    var front, last := events[..|events| - 1], events[|events| - 1];
    assert events == front + [last];
    InSnoc(front, last);
    MarkSnoc(front, last);
    KeepSnoc(front, last, Completing);
    if !SetsBack(last.data) {
      StaysOnceCompleted(front, to);
    }
  }

  /** Every completion that found the E3 failed has used up a failure below the last phase. */
  lemma {:induction false} CompletionsNeedFailures(events: seq<Event>)
    requires !SomeSetBack(events)
    ensures MarkOf(events).phase == Some(Settlement) ||
            |Keep(events, LowFailing)| >= |Keep(events, Completing)| + if MarkOf(events).failed then 1 else 0
  {
    hide PhaseOf;
    hide Fails;
    hide Completes;
    if events != [] {
      var front, last := events[..|events| - 1], events[|events| - 1];
      assert events == front + [last];
      InSnoc(front, last);
      MarkSnoc(front, last);
      KeepSnoc(front, last, Completing);
      KeepSnoc(front, last, LowFailing);
      LevelBound(PhaseOf(last.data));
      SetBackFails(last.data);
      CompletionsNeedFailures(front);
      assert last in events;
      assert !SetsBack(last.data);
    }
  }

  lemma {:induction false} FrozenAtTop(events: seq<Event>, f: Event)
    requires !SomeSetBack(events) && NoneCompletes(events) && Fails(f.data)
    requires forall x :: x in events ==> Top(x.data) <= Top(f.data)
    requires forall x :: x in events && Fails(x.data) ==> Top(x.data) == Top(f.data)
    ensures Level(MarkOf(events).phase) <= Top(f.data)
    ensures MarkOf(events).failed <==> exists x :: x in events && Fails(x.data)
    ensures MarkOf(events).failed ==> Level(MarkOf(events).phase) == Top(f.data)
  {
    hide PhaseOf;
    hide Fails;
    hide Completes;
    hide SetsBack;
    if events == [] {
      LevelBound(PhaseOf(f.data));
    } else {
      var front, last := events[..|events| - 1], events[|events| - 1];
      assert events == front + [last];
      InSnoc(front, last);
      MarkSnoc(front, last);
      FrozenAtTop(front, f);
      assert last in events;
      assert !SetsBack(last.data) && !Completes(last.data);
    }
  }

  lemma SameLevel(a: Option<Phase>, b: Option<Phase>)
    requires Level(a) == Level(b)
    ensures a == b
  {
    if a.Some? && b.Some? {
      SamePhase(a.value, b.value);
    }
  }

  lemma FailsAsMember(events: seq<Event>)
    ensures SomeFails(events) <==> exists x :: x in events && Fails(x.data)
  {
    if SomeFails(events) {
      var i :| 0 <= i < |events| && Fails(events[i].data);
      assert events[i] in events;
    }
    if x :| x in events && Fails(x.data) {
      var i :| 0 <= i < |events| && events[i] == x;
    }
  }

  /** Steady events that set back somewhere end in that phase, in every order. */
  lemma SteadySetBack(a: seq<Event>, b: seq<Event>)
    requires SteadyPhase(a) && SomeSetBack(a) && multiset(a) == multiset(b)
    ensures MarkOf(a).phase == MarkOf(b).phase
  {
    hide MarkOf;
    hide Keep;
    hide SetsBack;
    hide PhaseOf;
    hide Fails;
    hide Completes;
    SameElements(a, b);
    KeepIsOrderFree(a, b, Completing);
    var to :| OneSetBack(a, to) &&
              (NoneCompletes(a) || to == Settlement || (|Keep(a, Completing)| == 1 && NothingAbove(a, to)));
    if NoneCompletes(a) {
      StaysBack(a, to);
      StaysBack(b, to);
    } else if to == Settlement {
      StaysSettled(a);
      StaysSettled(b);
    } else {
      StaysOnceCompleted(a, to);
      StaysOnceCompleted(b, to);
    }
  }

  /** Steady events without such failures. */
  lemma SteadyOtherwise(a: seq<Event>, b: seq<Event>)
    requires SteadyPhase(a) && !SomeSetBack(a) && multiset(a) == multiset(b) && SomeFails(a)
    ensures MarkOf(a).phase == MarkOf(b).phase
  {
    hide MarkOf;
    hide Keep;
    hide SetsBack;
    hide PhaseOf;
    hide Fails;
    hide Completes;
    hide SomeFails;
    SameElements(a, b);
    FailsAsMember(a);
    if NoneCompletes(a) {
      var f :| f in a && Fails(f.data);
      assert f in b;
      FrozenAtTop(a, f);
      FrozenAtTop(b, f);
      SameLevel(MarkOf(a).phase, MarkOf(b).phase);
    } else {
      KeepIsOrderFree(a, b, Completing);
      KeepIsOrderFree(a, b, LowFailing);
      CompletionsNeedFailures(a);
      CompletionsNeedFailures(b);
    }
  }

  // ---------- unsteady events have two outcomes ----------

  lemma LastSetBackWins(front: seq<Event>, last: Event)
    requires SetsBack(last.data)
    ensures MarkOf(front + [last]) == Mark(true, Some(BackTo(last.data)))
  {
    MarkSnoc(front, last);
  }

  /** A set back, a completion, and then anything: the phase is free to rise again. */
  lemma RisesAfterSetBack(front: seq<Event>, g: Event, c: Event, x: Event)
    requires SetsBack(g.data) && Completes(c.data) && !SetsBack(x.data) && Top(x.data) > BackTo(g.data).Rank()
    ensures Level(MarkOf(front + [g] + [c] + [x]).phase) == Top(x.data)
  {
    hide PhaseOf;
    hide StagePhase;
    LastSetBackWins(front, g);
    MarkSnoc(front + [g], c);
    MarkSnoc(front + [g] + [c], x);
    SetBackFails(g.data);
    SetBackFails(c.data);
  }

  /** Only a failed stage lowers the phase, and an E3 that has not failed takes what an event says. */
  lemma StepRises(m: Mark, d: Data)
    requires !SetsBack(d)
    ensures Level(NextMark(m, d).phase) >= Level(m.phase)
    ensures !m.failed ==> Level(NextMark(m, d).phase) >= Top(d)
  {
    hide PhaseOf;
    hide Fails;
    hide Completes;
    hide SetsBack;
  }

  lemma {:induction false} RisesFromFirst(first: Event, rest: seq<Event>)
    requires !SetsBack(first.data) && !SomeSetBack(rest)
    ensures Level(MarkOf([first] + rest).phase) >= Top(first.data)
    decreases |rest|
  {
    hide MarkOf;
    hide NextMark;
    hide Level;
    hide Top;
    hide SetsBack;
    if rest == [] {
      MarkSnoc([], first);
      assert [first] + rest == [] + [first];
      StepRises(MarkOf([]), first.data);
    } else {
      var front, last := rest[..|rest| - 1], rest[|rest| - 1];
      assert rest == front + [last];
      InSnoc(front, last);
      RisesFromFirst(first, front);
      MarkSnoc([first] + front, last);
      assert [first] + rest == [first] + front + [last];
      assert last in rest;
      StepRises(MarkOf([first] + front), last.data);
    }
  }

  lemma StepFrozen(m: Mark, d: Data)
    ensures m.failed && !SetsBack(d) && !Completes(d) ==> NextMark(m, d) == m
    ensures Fails(d) && !SetsBack(d) ==> NextMark(Mark(false, None), d) == Mark(true, PhaseOf(d))
  {
    hide PhaseOf;
    hide Fails;
    hide Completes;
    hide SetsBack;
    SetBackFails(d);
    LevelBound(PhaseOf(d));
  }

  /** Behind a first failure everything is frozen until a completion. */
  lemma {:induction false} FrozenFromFirst(f: Event, rest: seq<Event>)
    requires Fails(f.data) && !SetsBack(f.data) && !SomeSetBack(rest) && NoneCompletes(rest)
    ensures MarkOf([f] + rest) == Mark(true, PhaseOf(f.data))
    decreases |rest|
  {
    hide MarkOf;
    hide NextMark;
    hide PhaseOf;
    hide Fails;
    hide Completes;
    hide SetsBack;
    if rest == [] {
      MarkSnoc([], f);
      assert [f] + rest == [] + [f];
      StepFrozen(MarkOf([]), f.data);
    } else {
      var front, last := rest[..|rest| - 1], rest[|rest| - 1];
      assert rest == front + [last];
      InSnoc(front, last);
      FrozenFromFirst(f, front);
      MarkSnoc([f] + front, last);
      assert [f] + rest == [f] + front + [last];
      assert last in rest;
      StepFrozen(MarkOf([f] + front), last.data);
    }
  }

  /** A failure before each completion. */
  function Pairs(lows: seq<Event>, completions: seq<Event>): (r: seq<Event>)
    requires |lows| == |completions|
    ensures multiset(r) == multiset(lows) + multiset(completions)
  {
    if lows == [] then []
    else
      var n := |lows| - 1;
      assert lows == lows[..n] + [lows[n]] && completions == completions[..n] + [completions[n]];
      Pairs(lows[..n], completions[..n]) + [lows[n]] + [completions[n]]
  }

  lemma {:induction false} PairsStayLow(start: seq<Event>, lows: seq<Event>, completions: seq<Event>)
    requires |lows| == |completions|
    requires forall i :: 0 <= i < |lows| ==>
               KindOf(lows[i].data) == LowFailing && KindOf(completions[i].data) == Completing
    requires !MarkOf(start).failed && Level(MarkOf(start).phase) < 7
    ensures var m := MarkOf(start + Pairs(lows, completions)); !m.failed && Level(m.phase) < 7
    decreases |lows|
  {
    hide PhaseOf;
    hide Fails;
    hide Completes;
    hide SetsBack;
    hide MarkOf;
    if lows == [] {
      assert start + Pairs(lows, completions) == start;
    } else {
      var n := |lows| - 1;
      var front := Pairs(lows[..n], completions[..n]);
      PairsStayLow(start, lows[..n], completions[..n]);
      MarkSnoc(start + front, lows[n]);
      MarkSnoc(start + front + [lows[n]], completions[n]);
      SetBackFails(completions[n].data);
      assert start + Pairs(lows, completions) == start + front + [lows[n]] + [completions[n]];
    }
  }

  /** Without set backs, failures below the last phase can shield every completion. */
  lemma LowOrder(events: seq<Event>) returns (other: seq<Event>)
    requires !SomeSetBack(events) && |Keep(events, LowFailing)| >= |Keep(events, Completing)| > 0
    ensures multiset(other) == multiset(events) && Level(MarkOf(other).phase) < 7
  {
    hide MarkOf;
    hide Keep;
    hide KindOf;
    hide PhaseOf;
    hide Fails;
    hide Completes;
    hide SetsBack;
    hide Pairs;
    var l, cs, rest := Keep(events, LowFailing), Keep(events, Completing), Keep(events, Remaining);
    var k := |cs|;
    KeepMembers(events, LowFailing);
    KeepMembers(events, Completing);
    KeepMembers(events, Remaining);
    KindsPartition(events);
    var frozen := rest + l[k..];
    assert l[0] in l && cs[0] in cs;
    forall x | x in frozen ensures x in events && KindOf(x.data) != Completing {
      assert x in rest || x in l;
    }
    Shielded(events, l[0], frozen, cs[0]);
    var start := [l[0]] + frozen + [cs[0]];
    PairsOfKinds(l, cs);
    PairsStayLow(start, l[1..k], cs[1..]);
    other := start + Pairs(l[1..k], cs[1..]);
    AllPlaced(l, cs, rest, Pairs(l[1..k], cs[1..]));
  }

  lemma PairsOfKinds(l: seq<Event>, cs: seq<Event>)
    requires |l| >= |cs| > 0
    requires forall x :: x in l ==> KindOf(x.data) == LowFailing
    requires forall x :: x in cs ==> KindOf(x.data) == Completing
    ensures var k := |cs|;
            forall i :: 0 <= i < k - 1 ==>
              KindOf(l[1..k][i].data) == LowFailing && KindOf(cs[1..][i].data) == Completing
  {
    hide KindOf;
    forall i | 0 <= i < |cs| - 1
      ensures KindOf(l[1..|cs|][i].data) == LowFailing && KindOf(cs[1..][i].data) == Completing
    {
      assert l[i + 1] in l && cs[i + 1] in cs;
    }
  }

  lemma AllPlaced(l: seq<Event>, cs: seq<Event>, rest: seq<Event>, pairs: seq<Event>)
    requires |l| >= |cs| > 0
    requires multiset(pairs) == multiset(l[1..|cs|]) + multiset(cs[1..])
    ensures multiset([l[0]] + (rest + l[|cs|..]) + [cs[0]] + pairs) == multiset(l) + multiset(cs) + multiset(rest)
  {
    var k := |cs|;
    assert l == [l[0]] + l[1..k] + l[k..];
    assert cs == [cs[0]] + cs[1..];
  }

  lemma Shielded(events: seq<Event>, f: Event, frozen: seq<Event>, c: Event)
    requires !SomeSetBack(events) && KindOf(f.data) == LowFailing && KindOf(c.data) == Completing
    requires f in events && forall x :: x in frozen ==> x in events && KindOf(x.data) != Completing
    ensures var m := MarkOf([f] + frozen + [c]); !m.failed && Level(m.phase) < 7
  {
    hide PhaseOf;
    hide Fails;
    hide Completes;
    hide SetsBack;
    FrozenFromFirst(f, frozen);
    MarkSnoc([f] + frozen, c);
    SetBackFails(c.data);
  }

  /** The events without one occurrence of one of them. */
  lemma TakeOut(events: seq<Event>, x: Event) returns (rest: seq<Event>)
    requires x in events
    ensures multiset(rest) + multiset{x} == multiset(events)
  {
    var i :| 0 <= i < |events| && events[i] == x;
    rest := events[..i] + events[i + 1..];
    assert events == events[..i] + [events[i]] + events[i + 1..];
  }

  lemma AnotherCompletion(events: seq<Event>, rest: seq<Event>, g: Event, c: Event) returns (x: Event)
    requires SetsBack(g.data) && Completes(c.data) && |Keep(events, Completing)| > 1
    requires multiset(rest) + multiset{c} + multiset{g} == multiset(events)
    ensures x in rest && Completes(x.data)
  {
    hide Keep;
    hide Completes;
    hide Fails;
    hide SetsBack;
    assert multiset(rest + [c] + [g]) == multiset(events);
    KeepIsOrderFree(events, rest + [c] + [g], Completing);
    KeepSnoc(rest, c, Completing);
    KeepSnoc(rest + [c], g, Completing);
    SetBackFails(g.data);
    SetBackFails(c.data);
    KeepMembers(rest, Completing);
    x := Keep(rest, Completing)[0];
    assert x in Keep(rest, Completing);
  }

  /** Something that can lift the phase behind a set back and a completion. */
  lemma SomethingRises(events: seq<Event>, g: Event, c: Event) returns (rest: seq<Event>, x: Event)
    requires g in events && c in events && SetsBack(g.data) && Completes(c.data) && BackTo(g.data) != Settlement
    requires !(|Keep(events, Completing)| == 1 && NothingAbove(events, BackTo(g.data)))
    ensures !SetsBack(x.data) && Top(x.data) > BackTo(g.data).Rank()
    ensures multiset(rest + [g] + [c] + [x]) == multiset(events)
  {
    hide Keep;
    hide Completes;
    hide Fails;
    hide SetsBack;
    hide PhaseOf;
    var to := BackTo(g.data);
    SetBackFails(g.data);
    SetBackFails(c.data);
    var withoutG := TakeOut(events, g);
    assert c in multiset(events) && c != g;
    assert c in multiset(withoutG);
    var others := TakeOut(withoutG, c);
    if NothingAbove(events, to) {
      KeepMembers(events, Completing);
      assert c in Keep(events, Completing);
      x := AnotherCompletion(events, others, g, c);
      SetBackFails(x.data);
      if to.Rank() >= 7 { SamePhase(to, Settlement); }
    } else {
      x :| x in events && !SetsBack(x.data) && !Completes(x.data) && Top(x.data) > to.Rank();
      assert x in multiset(events) && x != g && x != c;
      assert x in multiset(others);
    }
    rest := TakeOut(others, x);
  }

  lemma UnsteadySetBack(events: seq<Event>) returns (a: seq<Event>, b: seq<Event>)
    requires SomeSetBack(events) && !SteadyPhase(events)
    ensures multiset(a) == multiset(events) && multiset(b) == multiset(events)
    ensures MarkOf(a).phase != MarkOf(b).phase
  {
    hide MarkOf;
    hide Keep;
    hide Completes;
    hide Fails;
    hide SetsBack;
    hide PhaseOf;
    var g :| g in events && SetsBack(g.data);
    var to := BackTo(g.data);
    var front := TakeOut(events, g);
    a := front + [g];
    LastSetBackWins(front, g);
    if OneSetBack(events, to) {
      var c :| c in events && Completes(c.data);
      var rest, x := SomethingRises(events, g, c);
      b := rest + [g] + [c] + [x];
      RisesAfterSetBack(rest, g, c, x);
    } else {
      var h :| h in events && SetsBack(h.data) && BackTo(h.data) != to;
      var others := TakeOut(events, h);
      b := others + [h];
      LastSetBackWins(others, h);
    }
  }

  /** One of the events first, and the others behind it. */
  lemma PutFirst(events: seq<Event>, x: Event) returns (rest: seq<Event>)
    requires x in events
    ensures multiset([x] + rest) == multiset(events)
    ensures forall y :: y in rest ==> y in events
  {
    rest := TakeOut(events, x);
    SameElements([x] + rest, events);
    forall y | y in rest ensures y in events {
      assert y in [x] + rest;
    }
  }

  lemma UnsteadyOtherwise(events: seq<Event>) returns (a: seq<Event>, b: seq<Event>)
    requires !SomeSetBack(events) && !SteadyPhase(events)
    ensures multiset(a) == multiset(events) && multiset(b) == multiset(events)
    ensures MarkOf(a).phase != MarkOf(b).phase
  {
    hide MarkOf;
    hide Keep;
    hide Completes;
    hide Fails;
    hide SetsBack;
    hide PhaseOf;
    if NoneCompletes(events) {
      var f, x :| f in events && x in events && Fails(f.data) && Top(x.data) > Top(f.data);
      var behindF := PutFirst(events, f);
      var behindX := PutFirst(events, x);
      FrozenFromFirst(f, behindF);
      RisesFromFirst(x, behindX);
      a, b := [f] + behindF, [x] + behindX;
    } else {
      var c :| c in events && Completes(c.data);
      KeepMembers(events, Completing);
      SetBackFails(c.data);
      assert c in Keep(events, Completing);
      var rest := PutFirst(events, c);
      RisesFromFirst(c, rest);
      a := [c] + rest;
      b := LowOrder(events);
    }
  }

  /** The current phase is the same for every order of the events exactly when they are steady, failures and all. */
  lemma PhaseIsOrderFreeExactly(parse: Parser, id: string, events: seq<Event>)
    requires events != []
    ensures (forall other: seq<Event> :: other != [] && multiset(other) == multiset(events) ==>
               Fold(parse, id, other).currentPhase == Fold(parse, id, events).currentPhase)
            <==> SteadyPhase(events)
  {
    hide Fold;
    hide MarkOf;
    hide SteadyPhase;
    MarkOfRun(parse, id, events);
    if SteadyPhase(events) {
      forall other: seq<Event> | other != [] && multiset(other) == multiset(events)
        ensures Fold(parse, id, other).currentPhase == Fold(parse, id, events).currentPhase
      {
        MarkOfRun(parse, id, other);
        if SomeSetBack(events) {
          SteadySetBack(events, other);
        } else if SomeFails(events) {
          SteadyOtherwise(events, other);
        } else {
          PhaseIsOrderFree(parse, id, events, other);
        }
      }
    } else {
      var a, b;
      if SomeSetBack(events) { a, b := UnsteadySetBack(events); } else { a, b := UnsteadyOtherwise(events); }
      SameElements(a, events);
      SameElements(b, events);
      MarkOfRun(parse, id, a);
      MarkOfRun(parse, id, b);
    }
  }
}
