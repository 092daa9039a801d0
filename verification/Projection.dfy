/** The dashboard projection: one fold over the event stream into a per-chain and a per-E3 view. */
module Projection {
  import opened Bytes
  import opened E3Ids
  import opened Rewards

  datatype Phase =
    | Request | Committee | DkgSetup | DkgShares | KeyPublication | Computation | Decryption | Settlement
  {
    function Rank(): (r: nat)
      ensures r < 8
    {
      match this
      case Request => 0
      case Committee => 1
      case DkgSetup => 2
      case DkgShares => 3
      case KeyPublication => 4
      case Computation => 5
      case Decryption => 6
      case Settlement => 7
    }
  }

  datatype Stage = NoStage | Requested | Finalized | KeyPublished | CiphertextReady | StageComplete | StageFailed

  datatype Severity = Debug | Info | Warn | Error

  datatype Source = Local | Network | Evm

  datatype Status = Active | Complete | Failed

  /** The events the projection acts on; every other kind only carries its phase and severity. */
  datatype Data =
    | CiphernodeAdded(chainId: nat, address: string)
    | CiphernodeRemoved(chainId: nat, address: string)
    | OperatorActivationChanged(chainId: nat, operator: string, active: bool)
    | TicketBalanceUpdated(chainId: nat, operator: string, newBalance: string)
    | CiphernodeBondUpdated(chainId: nat, operator: string, newBond: string)
    | BondOwnerSet(chainId: nat, operator: string, bondOwner: string)
    | DeregistrationRequested(chainId: nat, operator: string, unlockAt: nat)
    | RewardCredited(e3: E3id, account: string, token: string, amount: string)
    | RewardClaimed(e3: E3id, account: string, token: string, amount: string)
    | RewardsDistributed(e3: E3id, nodes: seq<string>, amounts: seq<string>)
    | CommitteeFinalized(e3: E3id, committee: seq<string>, scores: seq<string>)
    | CommitteePublished(e3: E3id, nodes: seq<string>)
    | TicketSubmitted(e3: E3id, node: string, ticketId: nat, score: string)
    | CommitteeMemberExpelled(e3: E3id, node: string)
    | E3Failed(e3: E3id, failedAt: Stage, reason: string)
    | CommitteeFormationFailed(e3: E3id, nodesSubmitted: nat, thresholdRequired: nat)
    | E3RequestComplete(e3: E3id)
    | PlaintextOutputPublished(e3: E3id)
    | E3StageChanged(e3: E3id, previous: Stage, next: Stage)
    | Other(about: Option<E3id>, itsPhase: Option<Phase>, itsSeverity: Severity)
  {
    function E3(): Option<E3id>
    {
      if CiphernodeAdded? || CiphernodeRemoved? || OperatorActivationChanged? || TicketBalanceUpdated?
         || CiphernodeBondUpdated? || BondOwnerSet? || DeregistrationRequested? then None
      else if Other? then about
      else Some(e3)
    }
  }

  datatype Event = Event(data: Data, timestampUs: nat, source: Source)

  datatype EventView = EventView(
    timestampUs: nat, source: Source, e3Id: Option<string>, phase: Option<Phase>, severity: Severity)

  datatype Ticket = Ticket(node: string, ticketId: nat, score: string)

  datatype Allocation = Allocation(operator: string, amount: string)

  datatype Failure =
    | FailedAtStage(stage: Stage, reason: string)
    | FormationFailed(nodesSubmitted: nat, thresholdRequired: nat)

  datatype ChainReward = ChainReward(e3Id: string, view: RewardView)

  datatype ChainState = ChainState(
    registered: set<string>, active: set<string>,
    ticketBalance: Option<string>, ciphernodeBond: Option<string>, bondOwner: Option<string>,
    exitUnlockAt: Option<nat>, rewards: seq<ChainReward>)

  datatype E3State = E3State(
    e3Id: string, chainId: nat, events: seq<EventView>, status: Status, currentPhase: Option<Phase>,
    committee: seq<string>, scores: seq<string>, tickets: seq<Ticket>, expelled: set<string>,
    rewards: seq<RewardView>, rewardAllocations: seq<Allocation>, failure: Option<Failure>,
    failedPhase: Option<Phase>, firstSeenUs: nat, lastSeenUs: nat)

  datatype State = State(events: seq<EventView>, e3s: map<string, E3State>, chains: map<nat, ChainState>)

  // ---------- classification of events ----------

  /** The phase a failure is attributed to when the request was in this stage. */
  function StagePhase(stage: Stage): Phase
  {
    match stage
    case NoStage | Requested => Request
    case Finalized => DkgShares
    case KeyPublished => Computation
    case CiphertextReady => Decryption
    case StageComplete | StageFailed => Settlement
  }

  function PhaseOf(data: Data): Option<Phase>
  {
    match data
    case TicketSubmitted(_, _, _, _) | CommitteeFinalized(_, _, _) | CommitteeFormationFailed(_, _, _)
       | CommitteeMemberExpelled(_, _) => Some(Committee)
    case CommitteePublished(_, _) => Some(KeyPublication)
    case PlaintextOutputPublished(_) | RewardsDistributed(_, _, _) | RewardCredited(_, _, _, _)
       | RewardClaimed(_, _, _, _) | E3RequestComplete(_) => Some(Settlement)
    case E3StageChanged(_, _, next) =>
      Some(match next
           case NoStage | Requested => Request
           case Finalized => Committee
           case KeyPublished => KeyPublication
           case CiphertextReady => Computation
           case StageComplete | StageFailed => Settlement)
    case E3Failed(_, stage, _) => Some(StagePhase(stage))
    case Other(_, phase, _) => phase
    case _ => None
  }

  function SeverityOf(data: Data): Severity
  {
    match data
    case E3Failed(_, _, _) | CommitteeFormationFailed(_, _, _) => Error
    case CommitteeMemberExpelled(_, _) => Warn
    case Other(_, _, severity) => severity
    case _ => if PhaseOf(data).Some? then Info else Debug
  }

  function View(event: Event): EventView
  {
    EventView(event.timestampUs, event.source,
              if event.data.E3().Some? then Some(event.data.E3().value.ToString()) else None,
              PhaseOf(event.data), SeverityOf(event.data))
  }

  // ---------- the per-chain view ----------

  const DEFAULT_CHAIN: ChainState := ChainState({}, {}, None, None, None, None, [])

  function ChainAt(chains: map<nat, ChainState>, chainId: nat): ChainState
  {
    if chainId in chains then chains[chainId] else DEFAULT_CHAIN
  }

  function Views(rewards: seq<ChainReward>): (views: seq<RewardView>)
    ensures |views| == |rewards|
  {
    seq(|rewards|, i requires 0 <= i < |rewards| => rewards[i].view)
  }

  /** Which of a chain's credits belong to one E3. */
  function MaskFor(rewards: seq<ChainReward>, e3Id: string): (mask: seq<bool>)
    ensures |mask| == |rewards|
  {
    seq(|rewards|, i requires 0 <= i < |rewards| => rewards[i].e3Id == e3Id)
  }

  function WithViews(rewards: seq<ChainReward>, views: seq<RewardView>): (r: seq<ChainReward>)
    requires |views| == |rewards|
    ensures |r| == |rewards|
  {
    seq(|rewards|, i requires 0 <= i < |rewards| => rewards[i].(view := views[i]))
  }

  function ChainClaimed(
    parse: Parser, rewards: seq<ChainReward>, e3Id: string, account: string, token: string, amount: string)
    : seq<ChainReward>
  {
    WithViews(rewards, ClaimedUnder(parse, Views(rewards), MaskFor(rewards, e3Id), account, token, amount))
  }

  function Credit(account: string, token: string, amount: string): RewardView
  {
    RewardView(account, Some(token), amount, false)
  }

  function ChainStep(parse: Parser, local: string, chains: map<nat, ChainState>, data: Data): map<nat, ChainState>
  {
    match data
    case CiphernodeAdded(c, address) =>
      chains[c := ChainAt(chains, c).(registered := ChainAt(chains, c).registered + {NormalizeAddress(address)})]
    case CiphernodeRemoved(c, address) =>
      chains[c := ChainAt(chains, c).(registered := ChainAt(chains, c).registered - {NormalizeAddress(address)},
                                      active := ChainAt(chains, c).active - {NormalizeAddress(address)})]
    case OperatorActivationChanged(c, operator, active) =>
      chains[c := ChainAt(chains, c).(active := if active then ChainAt(chains, c).active + {NormalizeAddress(operator)}
                                                else ChainAt(chains, c).active - {NormalizeAddress(operator)})]
    case TicketBalanceUpdated(c, operator, balance) =>
      if NormalizeAddress(operator) == local then
        chains[c := ChainAt(chains, c).(ticketBalance := Some(balance))]
      else chains
    case CiphernodeBondUpdated(c, operator, bond) =>
      if NormalizeAddress(operator) == local then
        chains[c := ChainAt(chains, c).(ciphernodeBond := Some(bond))]
      else chains
    case BondOwnerSet(c, operator, owner) =>
      if NormalizeAddress(operator) == local then
        chains[c := ChainAt(chains, c).(bondOwner := Some(owner))]
      else chains
    case DeregistrationRequested(c, operator, unlockAt) =>
      if NormalizeAddress(operator) == local then
        chains[c := ChainAt(chains, c).(exitUnlockAt := Some(unlockAt))]
      else chains
    case RewardCredited(e3, account, token, amount) =>
      if NormalizeAddress(account) == local then
        chains[e3.chainId := ChainAt(chains, e3.chainId).(
          rewards := ChainAt(chains, e3.chainId).rewards +
                     [ChainReward(e3.ToString(), Credit(account, token, amount))])]
      else chains
    case RewardClaimed(e3, account, token, amount) =>
      if NormalizeAddress(account) == local then
        chains[e3.chainId := ChainAt(chains, e3.chainId).(
          rewards := ChainClaimed(parse, ChainAt(chains, e3.chainId).rewards, e3.ToString(), account, token, amount))]
      else chains
    case _ => chains
  }

  // ---------- the per-E3 view ----------

  function NewE3(e3Id: string, view: EventView): E3State
  {
    E3State(e3Id, ChainOf(e3Id), [], Active, None, [], [], [], {}, [], [], None, None, view.timestampUs, 0)
  }

  function MaxPhase(a: Phase, b: Phase): Phase { if a.Rank() >= b.Rank() then a else b }

  /** First and last seen times and the current phase, before the event's own effect. */
  function Touched(s: E3State, view: EventView): E3State
  {
    s.(firstSeenUs := if view.timestampUs < s.firstSeenUs then view.timestampUs else s.firstSeenUs,
       lastSeenUs := if view.timestampUs > s.lastSeenUs then view.timestampUs else s.lastSeenUs,
       currentPhase := if s.status != Failed && view.phase.Some? then
                         Some(if s.currentPhase.None? then view.phase.value
                              else MaxPhase(s.currentPhase.value, view.phase.value))
                       else s.currentPhase)
  }

  function Zip(nodes: seq<string>, amounts: seq<string>): seq<Allocation>
  {
    var n := if |nodes| < |amounts| then |nodes| else |amounts|;
    seq(n, i requires 0 <= i < n => Allocation(nodes[i], amounts[i]))
  }

  function Affected(parse: Parser, s: E3State, data: Data, view: EventView): E3State
  {
    match data
    case CommitteeFinalized(_, committee, scores) => s.(committee := committee, scores := scores)
    case CommitteePublished(_, nodes) => if s.committee == [] then s.(committee := nodes) else s
    case TicketSubmitted(_, node, id, score) => s.(tickets := s.tickets + [Ticket(node, id, score)])
    case CommitteeMemberExpelled(_, node) => s.(expelled := s.expelled + {NormalizeAddress(node)})
    case E3Failed(_, stage, reason) =>
      s.(status := Failed, failedPhase := view.phase, failure := Some(FailedAtStage(stage, reason)))
    case CommitteeFormationFailed(_, submitted, required) =>
      s.(status := Failed, failedPhase := Some(Committee), failure := Some(FormationFailed(submitted, required)))
    case E3RequestComplete(_) | PlaintextOutputPublished(_) => s.(status := Complete)
    case E3StageChanged(_, previous, next) =>
      if next == StageComplete then s.(status := Complete)
      else if next == StageFailed then
        s.(status := Failed, failedPhase := Some(StagePhase(previous)), currentPhase := Some(StagePhase(previous)))
      else s
    case RewardsDistributed(_, nodes, amounts) => s.(rewardAllocations := Zip(nodes, amounts))
    case RewardCredited(_, account, token, amount) => s.(rewards := s.rewards + [Credit(account, token, amount)])
    case RewardClaimed(_, account, token, amount) =>
      s.(rewards := ClaimedUnder(parse, s.rewards, AllOf(|s.rewards|), account, token, amount))
    case _ => s
  }

  function E3At(e3s: map<string, E3State>, e3Id: string, view: EventView): E3State
  {
    if e3Id in e3s then e3s[e3Id] else NewE3(e3Id, view)
  }

  function E3Next(parse: Parser, s: E3State, data: Data, view: EventView): E3State
  {
    var after := Affected(parse, Touched(s, view), data, view);
    after.(events := after.events + [view])
  }

  function E3Step(parse: Parser, e3s: map<string, E3State>, data: Data, view: EventView): map<string, E3State>
  {
    match view.e3Id
    case None => e3s
    case Some(id) => e3s[id := E3Next(parse, E3At(e3s, id, view), data, view)]
  }

  /** The whole effect of one event. */
  function Applied(parse: Parser, local: string, s: State, event: Event): State
  {
    State(s.events + [View(event)],
          E3Step(parse, s.e3s, event.data, View(event)),
          ChainStep(parse, local, s.chains, event.data))
  }

  /** The whole effect of a stream, from an empty projection. */
  function Run(parse: Parser, local: string, events: seq<Event>): State
  {
    if events == [] then State([], map[], map[])
    else Applied(parse, local, Run(parse, local, events[..|events| - 1]), events[|events| - 1])
  }

  // ---------- the projection object ----------

  class TelemetryProjection {
    const parse: Parser
    const localAddress: string
    var events: seq<EventView>
    var e3s: map<string, E3State>
    var chains: map<nat, ChainState>

    constructor (parse: Parser, localAddress: string)
      ensures this.parse == parse && this.localAddress == NormalizeAddress(localAddress)
      ensures Current() == Run(parse, this.localAddress, [])
    {
      this.parse := parse;
      this.localAddress := NormalizeAddress(localAddress);
      events, e3s, chains := [], map[], map[];
    }

    function Current(): State
      reads this
    {
      State(events, e3s, chains)
    }

    method Apply(event: Event)
      modifies this
      ensures Current() == Applied(parse, localAddress, old(Current()), event)
    {
      var view := View(event);
      ApplyOperatorState(event.data);
      if view.e3Id.Some? {
        ApplyE3State(view.e3Id.value, event.data, view);
      }
      events := events + [view];
    }

    method ApplyOperatorState(data: Data)
      modifies this`chains
      ensures chains == ChainStep(parse, localAddress, old(chains), data)
    {
      hide NormalizeAddress;
      hide ClaimedUnder;
      match data {
        case CiphernodeAdded(c, address) =>
          var state := ChainAt(chains, c);
          chains := chains[c := state.(registered := state.registered + {NormalizeAddress(address)})];
        case CiphernodeRemoved(c, address) =>
          var state := ChainAt(chains, c);
          var gone := NormalizeAddress(address);
          state := state.(registered := state.registered - {gone});
          state := state.(active := state.active - {gone});
          chains := chains[c := state];
        case OperatorActivationChanged(c, operator, active) =>
          var state := ChainAt(chains, c);
          var who := NormalizeAddress(operator);
          if active {
            state := state.(active := state.active + {who});
          } else {
            state := state.(active := state.active - {who});
          }
          chains := chains[c := state];
        case TicketBalanceUpdated(c, operator, balance) =>
          if NormalizeAddress(operator) == localAddress {
            chains := chains[c := ChainAt(chains, c).(ticketBalance := Some(balance))];
          }
        case CiphernodeBondUpdated(c, operator, bond) =>
          if NormalizeAddress(operator) == localAddress {
            chains := chains[c := ChainAt(chains, c).(ciphernodeBond := Some(bond))];
          }
        case BondOwnerSet(c, operator, owner) =>
          if NormalizeAddress(operator) == localAddress {
            chains := chains[c := ChainAt(chains, c).(bondOwner := Some(owner))];
          }
        case DeregistrationRequested(c, operator, unlockAt) =>
          if NormalizeAddress(operator) == localAddress {
            chains := chains[c := ChainAt(chains, c).(exitUnlockAt := Some(unlockAt))];
          }
        case RewardCredited(e3, account, token, amount) =>
          if NormalizeAddress(account) == localAddress {
            var state := ChainAt(chains, e3.chainId);
            var credit := ChainReward(e3.ToString(), Credit(account, token, amount));
            chains := chains[e3.chainId := state.(rewards := state.rewards + [credit])];
          }
        case RewardClaimed(e3, account, token, amount) =>
          if NormalizeAddress(account) == localAddress {
            var state := ChainAt(chains, e3.chainId);
            var views := MarkClaimedRewards(parse, Views(state.rewards), MaskFor(state.rewards, e3.ToString()),
                                            account, token, amount);
            chains := chains[e3.chainId := state.(rewards := WithViews(state.rewards, views))];
          }
        case _ =>
      }
    }

    method ApplyE3State(e3Id: string, data: Data, view: EventView)
      requires view.e3Id == Some(e3Id)
      modifies this`e3s
      ensures e3s == E3Step(parse, old(e3s), data, view)
    {
      hide Affected;
      hide Touched;
      hide E3At;
      var state := E3At(e3s, e3Id, view);
      state := TouchE3(state, view);
      state := AffectE3(state, data, view);
      state := state.(events := state.events + [view]);
      e3s := e3s[e3Id := state];
    }

    /** Seen times and current phase. */
    method TouchE3(before: E3State, view: EventView) returns (state: E3State)
      ensures state == Touched(before, view)
    {
      hide MaxPhase;
      state := before;
      if view.timestampUs < state.firstSeenUs {
        state := state.(firstSeenUs := view.timestampUs);
      }
      if view.timestampUs > state.lastSeenUs {
        state := state.(lastSeenUs := view.timestampUs);
      }
      if state.status != Failed && view.phase.Some? {
        var current := if state.currentPhase.None? then view.phase.value
                       else MaxPhase(state.currentPhase.value, view.phase.value);
        state := state.(currentPhase := Some(current));
      }
    }

    /** The event's own effect on the state of its E3. */
    method AffectE3(before: E3State, data: Data, view: EventView) returns (state: E3State)
      ensures state == Affected(parse, before, data, view)
    {
      hide NormalizeAddress;
      hide ClaimedUnder;
      hide Zip;
      hide StagePhase;
      state := before;
      match data {
        case CommitteeFinalized(_, committee, scores) =>
          state := state.(committee := committee, scores := scores);
        case CommitteePublished(_, nodes) =>
          if state.committee == [] {
            state := state.(committee := nodes);
          }
        case TicketSubmitted(_, node, id, score) =>
          state := state.(tickets := state.tickets + [Ticket(node, id, score)]);
        case CommitteeMemberExpelled(_, node) =>
          state := state.(expelled := state.expelled + {NormalizeAddress(node)});
        case E3Failed(_, stage, reason) =>
          state := state.(status := Failed, failedPhase := view.phase, failure := Some(FailedAtStage(stage, reason)));
        case CommitteeFormationFailed(_, submitted, required) =>
          state := state.(status := Failed, failedPhase := Some(Committee),
                          failure := Some(FormationFailed(submitted, required)));
        case E3RequestComplete(_) =>
          state := state.(status := Complete);
        case PlaintextOutputPublished(_) =>
          state := state.(status := Complete);
        case E3StageChanged(_, previous, next) =>
          if next == StageComplete {
            state := state.(status := Complete);
          } else if next == StageFailed {
            var failedPhase := StagePhase(previous);
            state := state.(status := Failed, failedPhase := Some(failedPhase), currentPhase := Some(failedPhase));
          }
        case RewardsDistributed(_, nodes, amounts) =>
          state := state.(rewardAllocations := Zip(nodes, amounts));
        case RewardCredited(_, account, token, amount) =>
          state := state.(rewards := state.rewards + [Credit(account, token, amount)]);
        case RewardClaimed(_, account, token, amount) =>
          var after := MarkClaimedRewards(parse, state.rewards, AllOf(|state.rewards|), account, token, amount);
          state := state.(rewards := after);
        case _ =>
      }
    }
  }
}
