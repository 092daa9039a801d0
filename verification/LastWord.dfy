/** What the projection shows after a stream, told by the events alone: who is active, which had the last word. */
module LastWord {
  import opened Bytes
  import opened E3Ids
  import opened Rewards
  import opened Projection
  import opened Lifecycle

  // ---------- registered and active operators ----------

  predicate Registers(d: Data, c: nat, who: string)
  {
    d.CiphernodeAdded? && d.chainId == c && NormalizeAddress(d.address) == who
  }

  predicate Removes(d: Data, c: nat, who: string)
  {
    d.CiphernodeRemoved? && d.chainId == c && NormalizeAddress(d.address) == who
  }

  predicate SwitchesTo(d: Data, c: nat, who: string, active: bool)
  {
    d.OperatorActivationChanged? && d.chainId == c && NormalizeAddress(d.operator) == who && d.active == active
  }

  lemma ChainStepMembers(parse: Parser, local: string, chains: map<nat, ChainState>, d: Data, c: nat, who: string)
    ensures var before, after := ChainAt(chains, c), ChainAt(ChainStep(parse, local, chains, d), c);
            && (who in after.registered <==> Registers(d, c, who) || (who in before.registered && !Removes(d, c, who)))
            && (who in after.active <==>
                SwitchesTo(d, c, who, true) ||
                (who in before.active && !Removes(d, c, who) && !SwitchesTo(d, c, who, false)))
  {
    hide NormalizeAddress;
    hide ChainClaimed;
  }

  /** On every stream, a node is registered exactly if some event adds it and no later one removes it. */
  lemma {:induction false} RegisteredExactly(parse: Parser, local: string, events: seq<Event>, c: nat, who: string)
    ensures who in ChainAt(Run(parse, local, events).chains, c).registered <==>
            exists i :: 0 <= i < |events| && Registers(events[i].data, c, who) &&
                        forall j :: i < j < |events| ==> !Removes(events[j].data, c, who)
  {
    hide ChainStep;
    hide E3Step;
    hide Registers;
    hide Removes;
    if events != [] {
      var n := |events| - 1;
      RegisteredExactly(parse, local, events[..n], c, who);
      ChainStepMembers(parse, local, Run(parse, local, events[..n]).chains, events[n].data, c, who);
    }
  }

  /** And it is active exactly if some event activates it and no later one deactivates or removes it. */
  lemma {:induction false} ActiveExactly(parse: Parser, local: string, events: seq<Event>, c: nat, who: string)
    ensures who in ChainAt(Run(parse, local, events).chains, c).active <==>
            exists i :: 0 <= i < |events| && SwitchesTo(events[i].data, c, who, true) &&
                        forall j :: i < j < |events| ==>
                          !SwitchesTo(events[j].data, c, who, false) && !Removes(events[j].data, c, who)
  {
    hide ChainStep;
    hide E3Step;
    hide SwitchesTo;
    hide Removes;
    if events != [] {
      var n := |events| - 1;
      ActiveExactly(parse, local, events[..n], c, who);
      ChainStepMembers(parse, local, Run(parse, local, events[..n]).chains, events[n].data, c, who);
    }
  }

  // ---------- the last word ----------

  datatype Topic = Balance(chainId: nat) | Bond(chainId: nat) | Owner(chainId: nat) | Exit(chainId: nat)
                 | Scores | Allocations | FailureReason | FailedPhase

  datatype Fact = Text(text: string) | Time(time: nat) | Texts(texts: seq<string>) | Shares(shares: seq<Allocation>)
                | Failing(failure: Failure) | At(phase: Phase)

  /** What one event says on a topic; of operators only the one running the dashboard counts. */
  function Says(topic: Topic, local: string, d: Data): Option<Fact>
  {
    match topic
    case Balance(c) =>
      if d.TicketBalanceUpdated? && d.chainId == c && NormalizeAddress(d.operator) == local
      then Some(Text(d.newBalance)) else None
    case Bond(c) =>
      if d.CiphernodeBondUpdated? && d.chainId == c && NormalizeAddress(d.operator) == local
      then Some(Text(d.newBond)) else None
    case Owner(c) =>
      if d.BondOwnerSet? && d.chainId == c && NormalizeAddress(d.operator) == local
      then Some(Text(d.bondOwner)) else None
    case Exit(c) =>
      if d.DeregistrationRequested? && d.chainId == c && NormalizeAddress(d.operator) == local
      then Some(Time(d.unlockAt)) else None
    case Scores => if d.CommitteeFinalized? then Some(Texts(d.scores)) else None
    case Allocations => if d.RewardsDistributed? then Some(Shares(Zip(d.nodes, d.amounts))) else None
    case FailureReason =>
      if d.E3Failed? then Some(Failing(FailedAtStage(d.failedAt, d.reason)))
      else if d.CommitteeFormationFailed? then Some(Failing(FormationFailed(d.nodesSubmitted, d.thresholdRequired)))
      else None
    case FailedPhase =>
      if d.E3Failed? then Some(At(StagePhase(d.failedAt)))
      else if d.CommitteeFormationFailed? then Some(At(Committee))
      else if d.E3StageChanged? && d.next == StageFailed then Some(At(StagePhase(d.previous)))
      else None
  }

  function LastSaid(topic: Topic, local: string, events: seq<Event>): Option<Fact>
  {
    if events == [] then None
    else
      var said := Says(topic, local, events[|events| - 1].data);
      if said.Some? then said else LastSaid(topic, local, events[..|events| - 1])
  }

  /** The last word is that of an event with none on the topic after it, and there is none if none speaks. */
  lemma {:induction false} LastSaidIsLast(topic: Topic, local: string, events: seq<Event>)
    ensures LastSaid(topic, local, events).None? <==>
            forall i :: 0 <= i < |events| ==> Says(topic, local, events[i].data).None?
    ensures LastSaid(topic, local, events).Some? ==>
              exists i :: 0 <= i < |events| && Says(topic, local, events[i].data) == LastSaid(topic, local, events) &&
                          forall j :: i < j < |events| ==> Says(topic, local, events[j].data).None?
  {
    hide Says;
    if events != [] {
      var n := |events| - 1;
      var front := events[..n];
      assert forall i :: 0 <= i < n ==> front[i] == events[i];
      LastSaidIsLast(topic, local, front);
      if Says(topic, local, events[n].data).None? && LastSaid(topic, local, front).Some? {
        var i :| 0 <= i < n && Says(topic, local, front[i].data) == LastSaid(topic, local, front) &&
                 forall j :: i < j < n ==> Says(topic, local, front[j].data).None?;
        assert Says(topic, local, events[i].data) == LastSaid(topic, local, events);
      }
    }
  }

  /** Allocations pair each operator with its amount, as far as both lists go. */
  lemma ZipPairs(nodes: seq<string>, amounts: seq<string>)
    ensures |Zip(nodes, amounts)| <= |nodes| && |Zip(nodes, amounts)| <= |amounts|
    ensures |Zip(nodes, amounts)| == |nodes| || |Zip(nodes, amounts)| == |amounts|
    ensures forall i :: 0 <= i < |Zip(nodes, amounts)| ==>
              Zip(nodes, amounts)[i].operator == nodes[i] && Zip(nodes, amounts)[i].amount == amounts[i]
  {
  }

  function AsText(value: Option<string>): Option<Fact> { match value case None => None case Some(v) => Some(Text(v)) }

  function AsTime(value: Option<nat>): Option<Fact> { match value case None => None case Some(v) => Some(Time(v)) }

  /** A chain as the last words on its topics. */
  ghost predicate ShowsLastWords(local: string, events: seq<Event>, c: nat, s: ChainState)
  {
    && AsText(s.ticketBalance) == LastSaid(Balance(c), local, events)
    && AsText(s.ciphernodeBond) == LastSaid(Bond(c), local, events)
    && AsText(s.bondOwner) == LastSaid(Owner(c), local, events)
    && AsTime(s.exitUnlockAt) == LastSaid(Exit(c), local, events)
  }

  lemma ChainStepSays(parse: Parser, local: string, chains: map<nat, ChainState>, d: Data, c: nat)
    ensures var before, after := ChainAt(chains, c), ChainAt(ChainStep(parse, local, chains, d), c);
            && AsText(after.ticketBalance) ==
                 (if Says(Balance(c), local, d).Some? then Says(Balance(c), local, d) else AsText(before.ticketBalance))
            && AsText(after.ciphernodeBond) ==
                 (if Says(Bond(c), local, d).Some? then Says(Bond(c), local, d) else AsText(before.ciphernodeBond))
            && AsText(after.bondOwner) ==
                 (if Says(Owner(c), local, d).Some? then Says(Owner(c), local, d) else AsText(before.bondOwner))
            && AsTime(after.exitUnlockAt) ==
                 (if Says(Exit(c), local, d).Some? then Says(Exit(c), local, d) else AsTime(before.exitUnlockAt))
  {
    hide NormalizeAddress;
    hide ChainClaimed;
    hide StagePhase;
    hide Zip;
  }

  /** On every stream, balance, bond, owner and exit time of a chain are the operator's last such events. */
  lemma {:induction false} ChainShowsLastWords(parse: Parser, local: string, events: seq<Event>, c: nat)
    ensures ShowsLastWords(local, events, c, ChainAt(Run(parse, local, events).chains, c))
  {
    hide ChainStep;
    hide E3Step;
    hide Says;
    if events != [] {
      var front, last := events[..|events| - 1], events[|events| - 1];
      ChainShowsLastWords(parse, local, front, c);
      ChainStepSays(parse, local, Run(parse, local, front).chains, last.data, c);
    }
  }

  // ---------- one E3 ----------

  function AsPhase(value: Option<Phase>): Option<Fact> { match value case None => None case Some(v) => Some(At(v)) }

  function AsFailure(value: Option<Failure>): Option<Fact>
  {
    match value case None => None case Some(v) => Some(Failing(v))
  }

  function TextsIn(fact: Option<Fact>): seq<string>
  {
    match fact case Some(Texts(texts)) => texts case _ => []
  }

  function SharesIn(fact: Option<Fact>): seq<Allocation>
  {
    match fact case Some(Shares(shares)) => shares case _ => []
  }

  /** The tickets handed in, in order. */
  function TicketsIn(events: seq<Event>): seq<Ticket>
  {
    if events == [] then []
    else
      var d := events[|events| - 1].data;
      TicketsIn(events[..|events| - 1]) + if d.TicketSubmitted? then [Ticket(d.node, d.ticketId, d.score)] else []
  }

  /** The last finalized committee; while it is empty, the first one published after it. */
  function CommitteeIn(events: seq<Event>): seq<string>
  {
    if events == [] then []
    else
      var before, d := CommitteeIn(events[..|events| - 1]), events[|events| - 1].data;
      if d.CommitteeFinalized? then d.committee
      else if d.CommitteePublished? && before == [] then d.nodes
      else before
  }

  predicate Expels(d: Data, who: string) { d.CommitteeMemberExpelled? && NormalizeAddress(d.node) == who }

  ghost predicate ExpelledIn(events: seq<Event>, who: string)
  {
    exists i :: 0 <= i < |events| && Expels(events[i].data, who)
  }

  ghost predicate ToldByEvents(events: seq<Event>, s: E3State)
  {
    && s.committee == CommitteeIn(events)
    && s.tickets == TicketsIn(events)
    && (forall who :: who in s.expelled <==> ExpelledIn(events, who))
    && s.scores == TextsIn(LastSaid(Scores, "", events))
    && s.rewardAllocations == SharesIn(LastSaid(Allocations, "", events))
    && AsFailure(s.failure) == LastSaid(FailureReason, "", events)
    && AsPhase(s.failedPhase) == LastSaid(FailedPhase, "", events)
  }

  lemma AffectedFields(parse: Parser, s: E3State, d: Data, v: EventView)
    requires v.phase == PhaseOf(d)
    ensures var next := Affected(parse, s, d, v);
            && next.committee == (if d.CommitteeFinalized? then d.committee
                                  else if d.CommitteePublished? && s.committee == [] then d.nodes else s.committee)
            && next.tickets == s.tickets + (if d.TicketSubmitted? then [Ticket(d.node, d.ticketId, d.score)] else [])
            && (forall who :: who in next.expelled <==> who in s.expelled || Expels(d, who))
  {
    hide NormalizeAddress;
    hide ClaimedUnder;
    hide Zip;
    hide StagePhase;
  }

  lemma AffectedWords(parse: Parser, s: E3State, d: Data, v: EventView)
    requires v.phase == PhaseOf(d)
    ensures var next := Affected(parse, s, d, v);
            && next.scores == (if Says(Scores, "", d).Some? then TextsIn(Says(Scores, "", d)) else s.scores)
            && next.rewardAllocations ==
                 (if Says(Allocations, "", d).Some? then SharesIn(Says(Allocations, "", d)) else s.rewardAllocations)
            && AsFailure(next.failure) ==
                 (if Says(FailureReason, "", d).Some? then Says(FailureReason, "", d) else AsFailure(s.failure))
            && AsPhase(next.failedPhase) ==
                 (if Says(FailedPhase, "", d).Some? then Says(FailedPhase, "", d) else AsPhase(s.failedPhase))
  {
    hide NormalizeAddress;
    hide ClaimedUnder;
    hide Zip;
    hide StagePhase;
  }

  lemma TouchedFields(s: E3State, v: EventView)
    ensures var t := Touched(s, v);
            && t.committee == s.committee && t.tickets == s.tickets && t.expelled == s.expelled && t.scores == s.scores
            && t.rewardAllocations == s.rewardAllocations && t.failure == s.failure && t.failedPhase == s.failedPhase
  {
  }

  lemma ViewPhase(event: Event)
    ensures View(event).phase == PhaseOf(event.data)
  {
  }

  lemma ToldByNone(id: string, v: EventView)
    ensures ToldByEvents([], NewE3(id, v))
  {
  }

  lemma ToldStep(parse: Parser, front: seq<Event>, last: Event, s: E3State)
    requires ToldByEvents(front, s)
    ensures ToldByEvents(front + [last], E3Next(parse, s, last.data, View(last)))
  {
    hide Affected;
    hide Touched;
    hide View;
    hide Says;
    hide Expels;
    hide ExpelledIn;
    hide PhaseOf;
    hide TextsIn;
    hide SharesIn;
    hide AsPhase;
    hide AsFailure;
    var events, v := front + [last], View(last);
    assert events[..|front|] == front;
    ViewPhase(last);
    TouchedFields(s, v);
    AffectedFields(parse, Touched(s, v), last.data, v);
    AffectedWords(parse, Touched(s, v), last.data, v);
    assert s.tickets + [] == s.tickets;
    forall who ensures ExpelledIn(events, who) <==> ExpelledIn(front, who) || Expels(last.data, who) {
      ExpelsNext(front, last, who);
    }
  }

  lemma ExpelsNext(front: seq<Event>, last: Event, who: string)
    ensures ExpelledIn(front + [last], who) <==> ExpelledIn(front, who) || Expels(last.data, who)
  {
    hide Expels;
    var events := front + [last];
    if i :| 0 <= i < |front| && Expels(front[i].data, who) { assert events[i] == front[i]; }
    if Expels(last.data, who) { assert events[|front|] == last; }
  }

  /**
   * After any stream, an E3's committee, tickets, expelled members, scores, allocations, failure and
   * failed phase are told by its own events: the last word, or the list of all of them.
   */
  lemma {:induction false} E3IsToldByEvents(parse: Parser, id: string, events: seq<Event>)
    requires events != []
    ensures ToldByEvents(events, Fold(parse, id, events))
    decreases |events|
  {
    hide ToldByEvents;
    hide E3Next;
    var front, last := events[..|events| - 1], events[|events| - 1];
    assert events == front + [last];
    if front == [] {
      ToldByNone(id, View(last));
      ToldStep(parse, [], last, NewE3(id, View(last)));
    } else {
      E3IsToldByEvents(parse, id, front);
      ToldStep(parse, front, last, Fold(parse, id, front));
    }
  }

  // ---------- the lists of events and credits ----------

  /** Every event is kept, in order, with its own time, source, E3, phase and severity. */
  lemma {:induction false} EventsAreKept(parse: Parser, local: string, events: seq<Event>)
    ensures var views := Run(parse, local, events).events;
            && |views| == |events|
            && forall i :: 0 <= i < |events| ==>
                 && views[i].timestampUs == events[i].timestampUs && views[i].source == events[i].source
                 && views[i].phase == PhaseOf(events[i].data) && views[i].severity == SeverityOf(events[i].data)
                 && (views[i].e3Id.Some? <==> events[i].data.E3().Some?)
                 && (views[i].e3Id.Some? ==> views[i].e3Id.value == events[i].data.E3().value.ToString())
  {
    hide ChainStep;
    hide E3Step;
    hide PhaseOf;
    hide SeverityOf;
    if events != [] {
      EventsAreKept(parse, local, events[..|events| - 1]);
    }
  }

  /** And so are the events of one E3. */
  lemma {:induction false} OwnEventsAreKept(parse: Parser, id: string, events: seq<Event>)
    requires events != []
    ensures var views := Fold(parse, id, events).events;
            |views| == |events| && forall i :: 0 <= i < |events| ==> views[i] == View(events[i])
    decreases |events|
  {
    hide Fold;
    hide View;
    hide ChainOf;
    hide Fails;
    hide Completes;
    var front := events[..|events| - 1];
    FoldStep(parse, id, events);
    if front != [] {
      OwnEventsAreKept(parse, id, front);
    } else {
      assert Before(parse, id, events).events == [];
    }
  }

  // ---------- what kind of event says what ----------

  /**
   * Exactly the events about operators have no phase. A request that fails in some stage counts as failed
   * at the work that follows, which is up to two phases beyond the one the stage itself has reached.
   */
  lemma PhasesOfEvents(d: Data, e: E3id, stage: Stage)
    requires !d.Other?
    ensures PhaseOf(d).None? <==> d.E3().None?
    ensures PhaseOf(d) == Some(Settlement) <==>
            d.PlaintextOutputPublished? || d.E3RequestComplete? || d.RewardsDistributed? || d.RewardCredited? ||
            d.RewardClaimed? || (d.E3StageChanged? && d.next in {StageComplete, StageFailed}) ||
            (d.E3Failed? && d.failedAt in {StageComplete, StageFailed})
    ensures PhaseOf(d) == Some(Committee) <==>
            d.TicketSubmitted? || d.CommitteeFinalized? || d.CommitteeFormationFailed? || d.CommitteeMemberExpelled? ||
            (d.E3StageChanged? && d.next == Finalized)
    ensures PhaseOf(d) == Some(KeyPublication) <==>
            d.CommitteePublished? || (d.E3StageChanged? && d.next == KeyPublished)
    ensures var reached := PhaseOf(E3StageChanged(e, stage, stage)).value.Rank();
            StagePhase(stage).Rank() - reached ==
            match stage case Finalized => 2 case KeyPublished => 1 case CiphertextReady => 1 case _ => 0
  {
  }

  /** Only failures are errors, only an expulsion is a warning, and what has no phase is of no interest. */
  lemma SeveritiesOfEvents(d: Data)
    requires !d.Other?
    ensures SeverityOf(d) == Error <==> d.E3Failed? || d.CommitteeFormationFailed?
    ensures SeverityOf(d) == Warn <==> d.CommitteeMemberExpelled?
    ensures SeverityOf(d) == Debug <==> d.E3().None?
  {
  }
}
