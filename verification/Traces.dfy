/** The trace of one E3: where it stands, what each phase has seen, and who is still on its committee. */
module Traces {
  import opened Bytes
  import opened E3Ids
  import opened Rewards
  import opened Projection
  import opened Lifecycle
  import opened LastWord

  datatype PhaseMark = MarkComplete | MarkActive | MarkFailed | MarkPending

  function AllPhases(): (ps: seq<Phase>)
    ensures |ps| == 8 && forall i :: 0 <= i < 8 ==> ps[i].Rank() == i
  {
    [Request, Committee, DkgSetup, DkgShares, KeyPublication, Computation, Decryption, Settlement]
  }

  function MarkOf(s: E3State, phase: Phase): PhaseMark
  {
    if s.status == Failed then
      var failedPhase := if s.failedPhase.Some? then s.failedPhase.value else Current(s);
      if phase == failedPhase then MarkFailed
      else if phase.Rank() < failedPhase.Rank() then MarkComplete
      else MarkPending
    else if phase.Rank() < Current(s).Rank() || (phase == Current(s) && s.status == Complete) then MarkComplete
    else if phase == Current(s) then MarkActive
    else MarkPending
  }

  /** What is counted in a phase: all events, those of one source, or those of one severity. */
  datatype What = Any | From(source: Source) | Of(severity: Severity)

  predicate Fits(v: EventView, what: What)
  {
    match what
    case Any => true
    case From(source) => v.source == source
    case Of(severity) => v.severity == severity
  }

  predicate Counted(v: EventView, phase: Option<Phase>, what: What) { v.phase == phase && Fits(v, what) }

  function Count(events: seq<EventView>, phase: Option<Phase>, what: What): nat
  {
    if events == [] then 0
    else Count(events[..|events| - 1], phase, what) + if Counted(events[|events| - 1], phase, what) then 1 else 0
  }

  datatype PhaseView = PhaseView(
    id: Phase, mark: PhaseMark, eventCount: nat, local: nat, net: nat, evm: nat, errors: nat, warnings: nat)

  datatype MemberView = MemberView(address: string, partyId: nat, score: Option<string>, expelled: bool)

  datatype E3Trace = E3Trace(
    summary: Summary, phases: seq<PhaseView>, committee: seq<MemberView>, tickets: seq<Ticket>,
    rewards: seq<RewardView>, rewardAllocations: seq<Allocation>, failure: Option<Failure>, events: seq<EventView>)

  function PhaseViewOf(s: E3State, phase: Phase): PhaseView
  {
    PhaseView(phase, MarkOf(s, phase), Count(s.events, Some(phase), Any),
              Count(s.events, Some(phase), From(Local)), Count(s.events, Some(phase), From(Network)),
              Count(s.events, Some(phase), From(Evm)), Count(s.events, Some(phase), Of(Error)),
              Count(s.events, Some(phase), Of(Warn)))
  }

  function Phases(s: E3State): (phases: seq<PhaseView>)
    ensures |phases| == 8
  {
    seq(8, i requires 0 <= i < 8 => PhaseViewOf(s, AllPhases()[i]))
  }

  function Members(s: E3State): (members: seq<MemberView>)
    ensures |members| == |s.committee|
  {
    seq(|s.committee|, i requires 0 <= i < |s.committee| =>
      MemberView(s.committee[i], i, if i < |s.scores| then Some(s.scores[i]) else None,
                 NormalizeAddress(s.committee[i]) in s.expelled))
  }

  function Trace(s: E3State): E3Trace
  {
    E3Trace(Summarize(s), Phases(s), Members(s), s.tickets, s.rewards, s.rewardAllocations, s.failure, s.events)
  }

  // ---------- the head of the trace ----------

  /** The phases up to a head are complete, the head is marked as the status says, the others are pending. */
  predicate HasHead(phases: seq<PhaseView>, head: nat, status: Status)
    requires |phases| == 8 && head < 8
  {
    && (forall i :: 0 <= i < head ==> phases[i].mark == MarkComplete)
    && phases[head].mark ==
         (match status case Failed => MarkFailed case Complete => MarkComplete case Active => MarkActive)
    && (forall i :: head < i < 8 ==> phases[i].mark == MarkPending)
  }

  /** Every trace has one head: the failed phase of a failed E3 if it is known, the current phase otherwise. */
  lemma TraceHasOneHead(s: E3State)
    ensures var head := if s.status == Failed && s.failedPhase.Some? then s.failedPhase.value
                        else if s.currentPhase.Some? then s.currentPhase.value else Request;
            HasHead(Trace(s).phases, head.Rank(), s.status)
    ensures forall i :: 0 <= i < 8 ==> Trace(s).phases[i].id.Rank() == i
  {
    hide Count;
    var headPhase := if s.status == Failed && s.failedPhase.Some? then s.failedPhase.value else Current(s);
    var head := headPhase.Rank();
    SamePhase(AllPhases()[head], headPhase);
    assert Trace(s).phases[head].id == headPhase;
    forall i | 0 <= i < 8 && i != head
      ensures Trace(s).phases[i].mark == if i < head then MarkComplete else MarkPending
    {
      assert AllPhases()[i].Rank() == i;
    }
  }

  lemma {:induction false} FailedHasPhase(parse: Parser, id: string, events: seq<Event>)
    requires events != [] && Fold(parse, id, events).status == Failed
    ensures LastSaid(FailedPhase, "", events).Some?
    decreases |events|
  {
    hide Fold;
    hide StagePhase;
    var front, last := events[..|events| - 1], events[|events| - 1];
    FoldStep(parse, id, events);
    if Says(FailedPhase, "", last.data).None? && front != [] {
      FailedHasPhase(parse, id, front);
    }
  }

  /** After any stream, the head of a failed E3 is where its last failure puts it, of any other the current phase. */
  lemma HeadOfRun(parse: Parser, id: string, events: seq<Event>)
    requires events != []
    ensures var s := Fold(parse, id, events);
            && (s.status == Failed ==>
                  exists phase :: LastSaid(FailedPhase, "", events) == Some(At(phase)) &&
                                  HasHead(Trace(s).phases, phase.Rank(), Failed))
            && (s.status != Failed ==> HasHead(Trace(s).phases, Current(s).Rank(), s.status))
  {
    hide Fold;
    hide Trace;
    hide HasHead;
    var s := Fold(parse, id, events);
    TraceHasOneHead(s);
    E3IsToldByEvents(parse, id, events);
    if s.status == Failed {
      FailedHasPhase(parse, id, events);
      assert AsPhase(s.failedPhase) == LastSaid(FailedPhase, "", events);
    }
  }

  // ---------- the counts ----------

  function Positions(events: seq<EventView>, phase: Option<Phase>, what: What): set<nat>
  {
    set i: nat | i < |events| && Counted(events[i], phase, what)
  }

  lemma PositionsNext(front: seq<EventView>, last: EventView, phase: Option<Phase>, what: What)
    ensures |Positions(front + [last], phase, what)| ==
            |Positions(front, phase, what)| + if Counted(last, phase, what) then 1 else 0
  {
    hide Counted;
    var n, events := |front|, front + [last];
    var before, after := Positions(front, phase, what), Positions(events, phase, what);
    assert events[n] == last;
    forall i: nat ensures i in after <==> i in before || (i == n && Counted(last, phase, what)) {
      if i < n { assert events[i] == front[i]; }
    }
    if Counted(last, phase, what) {
      assert after == before + {n};
    } else {
      assert after == before;
    }
  }

  lemma {:induction false} CountIsNumberOfPositions(events: seq<EventView>, phase: Option<Phase>, what: What)
    ensures Count(events, phase, what) == |Positions(events, phase, what)|
  {
    hide Counted;
    if events == [] {
      assert Positions(events, phase, what) == {};
    } else {
      hide Positions;
      var front, last := events[..|events| - 1], events[|events| - 1];
      CountIsNumberOfPositions(front, phase, what);
      PositionsNext(front, last, phase, what);
      assert events == front + [last];
    }
  }

  /** Each phase counts exactly its own events, by source and by severity, and every event has one source. */
  lemma PhaseCountsAreExact(s: E3State, i: nat)
    requires i < 8
    ensures var p, phase := Trace(s).phases[i], Some(AllPhases()[i]);
            && p.eventCount == |Positions(s.events, phase, Any)|
            && p.local == |Positions(s.events, phase, From(Local))|
            && p.net == |Positions(s.events, phase, From(Network))|
            && p.evm == |Positions(s.events, phase, From(Evm))|
            && p.errors == |Positions(s.events, phase, Of(Error))|
            && p.warnings == |Positions(s.events, phase, Of(Warn))|
            && p.eventCount == p.local + p.net + p.evm
  {
    hide Count;
    hide Positions;
    var phase := Some(AllPhases()[i]);
    CountIsNumberOfPositions(s.events, phase, Any);
    CountIsNumberOfPositions(s.events, phase, From(Local));
    CountIsNumberOfPositions(s.events, phase, From(Network));
    CountIsNumberOfPositions(s.events, phase, From(Evm));
    CountIsNumberOfPositions(s.events, phase, Of(Error));
    CountIsNumberOfPositions(s.events, phase, Of(Warn));
    SourcesPartition(s.events, phase);
  }

  lemma {:induction false} SourcesPartition(events: seq<EventView>, phase: Option<Phase>)
    ensures Count(events, phase, Any) ==
            Count(events, phase, From(Local)) + Count(events, phase, From(Network)) + Count(events, phase, From(Evm))
  {
    if events != [] {
      SourcesPartition(events[..|events| - 1], phase);
    }
  }

  function CountsOver(events: seq<EventView>, n: nat, what: What): nat
    requires n <= 8
  {
    if n == 0 then 0 else CountsOver(events, n - 1, what) + Count(events, Some(AllPhases()[n - 1]), what)
  }

  lemma {:induction false} CountsOverSnoc(events: seq<EventView>, last: EventView, n: nat, what: What)
    requires n <= 8
    ensures CountsOver(events + [last], n, what) ==
            CountsOver(events, n, what)
            + if last.phase.Some? && last.phase.value.Rank() < n && Fits(last, what) then 1 else 0
  {
    hide Fits;
    assert (events + [last])[..|events|] == events;
    if n > 0 {
      CountsOverSnoc(events, last, n - 1, what);
      if last.phase.Some? && last.phase.value.Rank() == n - 1 {
        SamePhase(last.phase.value, AllPhases()[n - 1]);
      }
    }
  }

  /** How many events there are to count at all. */
  function Total(events: seq<EventView>, what: What): nat
  {
    if events == [] then 0
    else Total(events[..|events| - 1], what) + if Fits(events[|events| - 1], what) then 1 else 0
  }

  lemma {:induction false} PhasesPartitionEvents(events: seq<EventView>, what: What)
    ensures CountsOver(events, 8, what) + Count(events, None, what) == Total(events, what)
  {
    hide Fits;
    if events == [] {
      NoCounts(8, what);
    } else {
      var front, last := events[..|events| - 1], events[|events| - 1];
      PhasesPartitionEvents(front, what);
      CountsOverSnoc(front, last, 8, what);
      assert events == front + [last];
    }
  }

  lemma {:induction false} NoCounts(n: nat, what: What)
    requires n <= 8
    ensures CountsOver([], n, what) == 0
  {
    if n > 0 {
      NoCounts(n - 1, what);
    }
  }

  lemma {:induction false} TotalsOfSummary(events: seq<EventView>, severity: Severity)
    ensures Total(events, Any) == |events| && Total(events, Of(severity)) == CountSeverity(events, severity)
  {
    if events != [] {
      TotalsOfSummary(events[..|events| - 1], severity);
    }
  }

  /**
   * No event of an E3 is traced twice or dropped: over the phases, the events, errors and warnings add up
   * to those of the summary, less the ones that have no phase.
   */
  lemma TraceCountsEveryEvent(s: E3State)
    ensures CountsOver(s.events, 8, Any) + Count(s.events, None, Any) == Trace(s).summary.eventCount
    ensures CountsOver(s.events, 8, Of(Error)) + Count(s.events, None, Of(Error)) == Trace(s).summary.errorCount
    ensures CountsOver(s.events, 8, Of(Warn)) + Count(s.events, None, Of(Warn)) == Trace(s).summary.warningCount
  {
    hide CountsOver;
    hide Count;
    PhasesPartitionEvents(s.events, Any);
    PhasesPartitionEvents(s.events, Of(Error));
    PhasesPartitionEvents(s.events, Of(Warn));
    TotalsOfSummary(s.events, Error);
    TotalsOfSummary(s.events, Warn);
  }

  // ---------- the committee ----------

  /**
   * After any stream, each traced member has its place and its score of the last finalized committee, and
   * is marked expelled exactly if some event of the E3 expels it, however its address is spelled.
   */
  lemma MembersOfRun(parse: Parser, id: string, events: seq<Event>, i: nat)
    requires events != [] && i < |CommitteeIn(events)|
    ensures var members := Trace(Fold(parse, id, events)).committee;
            var scores := TextsIn(LastSaid(Scores, "", events));
            && |members| == |CommitteeIn(events)|
            && members[i].address == CommitteeIn(events)[i] && members[i].partyId == i
            && members[i].score == (if i < |scores| then Some(scores[i]) else None)
            && (members[i].expelled <==> ExpelledIn(events, NormalizeAddress(CommitteeIn(events)[i])))
  {
    hide Fold;
    hide Phases;
    hide Summarize;
    hide LastSaid;
    hide CommitteeIn;
    hide ExpelledIn;
    hide NormalizeAddress;
    E3IsToldByEvents(parse, id, events);
  }

  // ---------- the summary ----------

  /** After any stream, every field of an E3's summary is told by its own events. */
  lemma SummaryOfRun(parse: Parser, id: string, events: seq<Event>)
    requires events != []
    ensures var x := Summarize(Fold(parse, id, events));
            && x.e3Id == id && x.chainId == ChainOf(id)
            && x.status == Fold(parse, id, events).status
            && x.currentPhase == (match Fold(parse, id, events).currentPhase case Some(p) => p case None => Request)
            && x.eventCount == |events|
            && x.errorCount == CountEvents(events, Error) && x.warningCount == CountEvents(events, Warn)
            && x.committeeSize == |CommitteeIn(events)|
            && IsFirst(events, x.firstSeenUs) && IsLast(events, x.lastSeenUs)
  {
    hide Fold;
    hide ChainOf;
    hide CountEvents;
    hide CountSeverity;
    hide CommitteeIn;
    hide IsFirst;
    hide IsLast;
    TimesOfRun(parse, id, events);
    CountsOfRun(parse, id, events, Error);
    CountsOfRun(parse, id, events, Warn);
    E3IsToldByEvents(parse, id, events);
  }
}
