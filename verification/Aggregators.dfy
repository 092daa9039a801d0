/** When the plaintext aggregator of an E3 starts: rosters, ciphertext and readiness arrive in any order. */
module Aggregators {
  import opened Bytes

  type Address = nat

  /** The library's address parser. */
  type AddressParser = string -> Option<Address>

  datatype Meta = Meta(thresholdM: nat, thresholdN: nat)

  datatype CommitteeSize = Minimum | Micro | Small
  {
    function Honest(): nat { match this case Minimum => 2 case Micro => 5 case Small => 10 }
  }

  function SizeOf(meta: Meta): Option<CommitteeSize>
  {
    if meta == Meta(1, 3) then Some(Minimum)
    else if meta == Meta(4, 9) then Some(Micro)
    else if meta == Meta(9, 19) then Some(Small)
    else None
  }

  datatype Event =
    | AggregatorChanged(isAggregator: bool)
    | CiphernodeSelected
    | PublicKeyAggregated(committee: seq<Address>, nodes: seq<string>, honest: seq<Address>)
    | CommitteePublished(nodes: seq<string>)
    | CiphertextOutputPublished(ciphertext: nat)
    | Other

  /** What the aggregator was started with. */
  datatype Aggregator = Aggregator(
    ciphertext: nat, size: CommitteeSize, committee: seq<Address>, honest: seq<Address>, initiallyActive: bool)

  /** The context of one E3: dependencies and recipients that extensions set as they become known. */
  datatype Context = Context(
    meta: Option<Meta>, committee: Option<seq<Address>>, honest: Option<seq<Address>>,
    honestPartyIds: Option<seq<nat>>, active: Option<bool>, pending: Option<nat>,
    keyshareReady: bool, plaintext: Option<Aggregator>, starts: nat, snapshot: Option<nat>, errors: nat)

  // ---------- rosters ----------

  /** Every node string as an address, or nothing if one is malformed. */
  function ParseAll(parse: AddressParser, nodes: seq<string>): Option<seq<Address>>
  {
    if nodes == [] then Some([])
    else match parse(nodes[0])
      case None => None
      case Some(a) =>
        match ParseAll(parse, nodes[1..])
        case None => None
        case Some(rest) => Some([a] + rest)
  }

  /** The addresses of the honest parties, in party order; none if the set is empty or names a stranger. */
  function HonestFromIds(committee: seq<Address>, ids: seq<nat>): Option<seq<Address>>
  {
    if ids == [] || exists i :: 0 <= i < |ids| && ids[i] >= |committee| then None
    else Some(seq(|ids|, i requires 0 <= i < |ids| => committee[ids[i]]))
  }

  /** Fills in the honest roster from remembered party numbers, if both are known and it is not there yet. */
  function RememberHonest(c: Context): (Context, bool)
  {
    if c.honest.Some? || c.committee.None? || c.honestPartyIds.None? then (c, true)
    else match HonestFromIds(c.committee.value, c.honestPartyIds.value)
      case None => (c, false)
      case Some(roster) => (c.(honest := Some(roster)), true)
  }

  function RememberPublished(parse: AddressParser, c: Context, nodes: seq<string>): (Context, bool)
  {
    match ParseAll(parse, nodes)
    case None => (c, false)
    case Some(roster) =>
      var known := c.(committee := Some(roster));
      var matched := c.meta.Some? && SizeOf(c.meta.value).Some? && SizeOf(c.meta.value).value.Honest() == |roster|;
      RememberHonest(if matched then known.(honest := Some(roster)) else known)
  }

  // ---------- starting ----------

  predicate CanStart(c: Context)
  {
    && c.keyshareReady && c.meta.Some? && SizeOf(c.meta.value).Some?
    && c.committee.Some? && c.honest.Some? && c.honest.value != []
  }

  /** One attempt to start with a ciphertext. */
  function TryStart(c: Context, ciphertext: nat): Context
  {
    if !c.keyshareReady || c.plaintext.Some? then c
    else if c.meta.None? then c.(errors := c.errors + 1)
    else if c.committee.None? || c.honest.None? || c.honest.value == [] then c
    else
      var saved := c.(snapshot := Some(ciphertext));
      match SizeOf(c.meta.value)
      case None => saved.(errors := c.errors + 1)
      case Some(size) =>
        saved.(plaintext := Some(Aggregator(ciphertext, size, c.committee.value, c.honest.value,
                                            c.active.Some? && c.active.value)),
               starts := c.starts + 1)
  }

  function RetryPending(c: Context): Context
  {
    if c.pending.Some? then TryStart(c, c.pending.value) else c
  }

  function OnEvent(parse: AddressParser, c: Context, event: Event): Context
  {
    match event
    case AggregatorChanged(isAggregator) => RetryPending(c.(active := Some(isAggregator)))
    case CiphernodeSelected => RetryPending(c)
    case PublicKeyAggregated(committee, nodes, honest) =>
      (match if committee != [] then Some(committee) else ParseAll(parse, nodes)
       case None => c.(errors := c.errors + 1)
       case Some(roster) =>
         if honest == [] then c.(committee := Some(roster), errors := c.errors + 1)
         else RetryPending(c.(committee := Some(roster), honest := Some(honest))))
    case CommitteePublished(nodes) =>
      var (known, ok) := RememberPublished(parse, c, nodes);
      RetryPending(if ok then known else known.(errors := known.errors + 1))
    case CiphertextOutputPublished(ciphertext) => TryStart(c.(pending := Some(ciphertext)), ciphertext)
    case Other => c
  }

  // ---------- the extension acting on a context object ----------

  class E3Context {
    var state: Context

    constructor (initial: Context)
      ensures state == initial
    {
      state := initial;
    }
  }

  class PlaintextExtension {
    const parse: AddressParser

    constructor (parse: AddressParser)
      ensures this.parse == parse
    {
      this.parse := parse;
    }

    method TryStartPlaintext(ctx: E3Context, ciphertext: nat) returns (running: bool)
      modifies ctx
      ensures ctx.state == TryStart(old(ctx.state), ciphertext)
      ensures running <==> ctx.state.keyshareReady && ctx.state.plaintext.Some?
    {
      if !ctx.state.keyshareReady {
        return false;
      }
      if ctx.state.plaintext.Some? {
        return true;
      }
      if ctx.state.meta.None? {
        ctx.state := ctx.state.(errors := ctx.state.errors + 1);
        return false;
      }
      if ctx.state.committee.None? {
        return false;
      }
      if ctx.state.honest.None? || ctx.state.honest.value == [] {
        return false;
      }
      var initiallyActive := ctx.state.active.Some? && ctx.state.active.value;
      ctx.state := ctx.state.(snapshot := Some(ciphertext));
      var size := SizeOf(ctx.state.meta.value);
      if size.None? {
        ctx.state := ctx.state.(errors := ctx.state.errors + 1);
        return false;
      }
      var aggregator := Aggregator(ciphertext, size.value, ctx.state.committee.value, ctx.state.honest.value,
                                   initiallyActive);
      ctx.state := ctx.state.(plaintext := Some(aggregator), starts := ctx.state.starts + 1);
      return true;
    }

    method HandleEvent(ctx: E3Context, event: Event)
      modifies ctx
      ensures ctx.state == OnEvent(parse, old(ctx.state), event)
    {
      match event {
        case AggregatorChanged(isAggregator) =>
          ctx.state := ctx.state.(active := Some(isAggregator));
        case CiphernodeSelected =>
        case PublicKeyAggregated(committee, nodes, honest) =>
          var roster := if committee != [] then Some(committee) else ParseAll(parse, nodes);
          if roster.None? {
            ctx.state := ctx.state.(errors := ctx.state.errors + 1);
            return;
          }
          ctx.state := ctx.state.(committee := Some(roster.value));
          if honest == [] {
            ctx.state := ctx.state.(errors := ctx.state.errors + 1);
            return;
          }
          ctx.state := ctx.state.(honest := Some(honest));
        case CommitteePublished(nodes) =>
          var (known, ok) := RememberPublished(parse, ctx.state, nodes);
          ctx.state := if ok then known else known.(errors := known.errors + 1);
        case CiphertextOutputPublished(ciphertext) =>
          ctx.state := ctx.state.(pending := Some(ciphertext));
        case Other =>
          return;
      }
      if ctx.state.pending.Some? {
        var _ := TryStartPlaintext(ctx, ctx.state.pending.value);
      }
    }
  }

  // ---------- runs ----------

  /** Besides events, other extensions fill in the metadata, the keyshare recipient and the committee. */
  datatype Step =
    | Observe(event: Event)
    | SetMeta(meta: Meta)
    | SetKeyshare
    | SetCommittee(roster: seq<Address>)

  function After(parse: AddressParser, c: Context, step: Step): Context
  {
    match step
    case Observe(event) => OnEvent(parse, c, event)
    case SetMeta(meta) => c.(meta := Some(meta))
    case SetKeyshare => c.(keyshareReady := true)
    case SetCommittee(roster) => c.(committee := Some(roster))
  }

  /** The context after the first `n` steps. */
  function At(parse: AddressParser, c: Context, steps: seq<Step>, n: nat): Context
    requires n <= |steps|
  {
    if n == 0 then c else After(parse, At(parse, c, steps, n - 1), steps[n - 1])
  }

  /** A context that was just created: nothing known, except party numbers recovered from a snapshot. */
  predicate Fresh(c: Context)
  {
    && c.committee.None? && c.honest.None? && c.pending.None? && c.plaintext.None? && c.starts == 0
  }

  /**
   * The aggregator runs or not, started once, and then with an honest roster. A new context is sound,
   * and so is one whose rosters and aggregator were recovered after a restart.
   */
  predicate Sound(c: Context)
  {
    && (c.honest.Some? ==> c.honest.value != [])
    && c.starts == (if c.plaintext.Some? then 1 else 0)
    && (c.plaintext.Some? ==> c.plaintext.value.honest != [])
  }

  /** What is known stays known: nothing is ever unset. */
  predicate Keeps(a: Context, b: Context)
  {
    && (a.committee.Some? ==> b.committee.Some?) && (a.honest.Some? ==> b.honest.Some?)
    && (a.pending.Some? ==> b.pending.Some?) && (a.keyshareReady ==> b.keyshareReady)
    && (a.plaintext.Some? ==> b.plaintext == a.plaintext)
  }

  lemma RememberHonestKeeps(c: Context)
    requires Sound(c)
    ensures Sound(RememberHonest(c).0) && Keeps(c, RememberHonest(c).0) && RememberHonest(c).0.meta == c.meta
  {
  }

  lemma RememberPublishedKeeps(parse: AddressParser, c: Context, nodes: seq<string>)
    requires Sound(c)
    ensures Sound(RememberPublished(parse, c, nodes).0) && Keeps(c, RememberPublished(parse, c, nodes).0)
  {
    hide ParseAll;
    hide HonestFromIds;
    hide RememberHonest;
    if ParseAll(parse, nodes).Some? {
      var roster := ParseAll(parse, nodes).value;
      var known := c.(committee := Some(roster));
      var matched := c.meta.Some? && SizeOf(c.meta.value).Some? && SizeOf(c.meta.value).value.Honest() == |roster|;
      RememberHonestKeeps(if matched then known.(honest := Some(roster)) else known);
    }
  }

  lemma TryStartKeeps(c: Context, ciphertext: nat)
    requires Sound(c)
    ensures Sound(TryStart(c, ciphertext)) && Keeps(c, TryStart(c, ciphertext))
    ensures CanStart(c) ==> TryStart(c, ciphertext).plaintext.Some?
  {
  }

  lemma StepKeeps(parse: AddressParser, c: Context, step: Step)
    requires Sound(c)
    ensures Sound(After(parse, c, step)) && Keeps(c, After(parse, c, step))
  {
    hide TryStart;
    hide RememberPublished;
    hide ParseAll;
    if step.Observe? {
      match step.event
      case AggregatorChanged(isAggregator) =>
        if c.pending.Some? { TryStartKeeps(c.(active := Some(isAggregator)), c.pending.value); }
      case CiphernodeSelected =>
        if c.pending.Some? { TryStartKeeps(c, c.pending.value); }
      case PublicKeyAggregated(committee, nodes, honest) =>
        var roster := if committee != [] then Some(committee) else ParseAll(parse, nodes);
        if roster.Some? && honest != [] && c.pending.Some? {
          TryStartKeeps(c.(committee := roster, honest := Some(honest)), c.pending.value);
        }
      case CommitteePublished(nodes) =>
        RememberPublishedKeeps(parse, c, nodes);
        var (known, ok) := RememberPublished(parse, c, nodes);
        var next := if ok then known else known.(errors := known.errors + 1);
        if next.pending.Some? { TryStartKeeps(next, next.pending.value); }
      case CiphertextOutputPublished(ciphertext) =>
        TryStartKeeps(c.(pending := Some(ciphertext)), ciphertext);
      case Other =>
    }
  }

  /** Over every run the aggregator is started at most once and only with a nonempty honest roster. */
  lemma {:induction false} RunsAreSound(parse: AddressParser, c: Context, steps: seq<Step>, i: nat, n: nat)
    requires Sound(c) && i <= n <= |steps|
    ensures Sound(At(parse, c, steps, n)) && At(parse, c, steps, n).starts <= 1
    ensures Keeps(At(parse, c, steps, i), At(parse, c, steps, n))
    decreases n
  {
    hide OnEvent;
    if n > 0 {
      RunsAreSound(parse, c, steps, if i < n then i else n - 1, n - 1);
      StepKeeps(parse, At(parse, c, steps, n - 1), steps[n - 1]);
    }
  }

  /** A usable public-key event: its committee is given or parses, and its honest roster is not empty. */
  predicate Usable(parse: AddressParser, event: Event)
  {
    event.PublicKeyAggregated? && event.honest != [] && (event.committee != [] || ParseAll(parse, event.nodes).Some?)
  }

  predicate Ready(c: Context)
  {
    c.keyshareReady && c.meta.Some? && SizeOf(c.meta.value).Some?
  }

  lemma UsableSetsRosters(parse: AddressParser, c: Context, event: Event)
    requires Sound(c) && Usable(parse, event)
    ensures var next := OnEvent(parse, c, event);
            && next.committee.Some? && next.honest.Some?
            && (Ready(c) && c.pending.Some? ==> next.plaintext.Some?)
  {
    hide ParseAll;
  }

  lemma CiphertextStarts(parse: AddressParser, c: Context, event: Event)
    requires Sound(c) && event.CiphertextOutputPublished?
    ensures var next := OnEvent(parse, c, event);
            && next.pending.Some?
            && (Ready(c) && c.committee.Some? && c.honest.Some? ==> next.plaintext.Some?)
  {
  }

  /**
   * A ciphertext and a usable public-key event, in either order and with any steps between: if the
   * keyshare recipient and metadata of a known committee size are there before the later of the two,
   * the aggregator is running from then on.
   */
  lemma ArrivalOrderDoesNotMatter(parse: AddressParser, c: Context, steps: seq<Step>, i: nat, j: nat, n: nat)
    requires Sound(c) && i < n && j < n && n <= |steps|
    requires steps[i].Observe? && steps[i].event.CiphertextOutputPublished?
    requires steps[j].Observe? && Usable(parse, steps[j].event)
    requires Ready(At(parse, c, steps, if i < j then j else i))
    ensures At(parse, c, steps, n).plaintext.Some? && At(parse, c, steps, n).starts == 1
  {
    hide OnEvent;
    hide ParseAll;
    var later := if i < j then j else i;
    RunsAreSound(parse, c, steps, i, i);
    RunsAreSound(parse, c, steps, j, j);
    RunsAreSound(parse, c, steps, later + 1, n);
    CiphertextStarts(parse, At(parse, c, steps, i), steps[i].event);
    UsableSetsRosters(parse, At(parse, c, steps, j), steps[j].event);
    assert At(parse, c, steps, i + 1) == OnEvent(parse, At(parse, c, steps, i), steps[i].event);
    assert At(parse, c, steps, j + 1) == OnEvent(parse, At(parse, c, steps, j), steps[j].event);
    if i < j {
      RunsAreSound(parse, c, steps, i + 1, j);
    } else if j < i {
      RunsAreSound(parse, c, steps, j + 1, i);
    }
  }

  /** In a context that was only waiting for the two, both orders start the same aggregator. */
  lemma BothOrdersStartTheSame(parse: AddressParser, c: Context, ciphertext: nat, key: Event)
    requires Fresh(c) && Ready(c) && Usable(parse, key)
    ensures var first := OnEvent(parse, OnEvent(parse, c, CiphertextOutputPublished(ciphertext)), key);
            var second := OnEvent(parse, OnEvent(parse, c, key), CiphertextOutputPublished(ciphertext));
            first == second && first.plaintext.Some? && first.plaintext.value.honest == key.honest
  {
    hide ParseAll;
  }

  /** The honest roster has a check against emptiness, the committee roster has none: it can start empty. */
  lemma EmptyCommitteeCanStart(parse: AddressParser, c: Context, ciphertext: nat, honest: Address)
    requires Fresh(c) && Ready(c)
    ensures var key := PublicKeyAggregated([], [], [honest]);
            var after := OnEvent(parse, OnEvent(parse, c, CiphertextOutputPublished(ciphertext)), key);
            after.plaintext.Some? && after.plaintext.value.committee == []
  {
  }

  predicate NoRepeats(roster: seq<Address>) { forall i, j :: 0 <= i < j < |roster| ==> roster[i] != roster[j] }

  predicate Increasing(ids: seq<nat>) { forall i, j :: 0 <= i < j < |ids| ==> ids[i] < ids[j] }

  /** Of two members listed in a roster, the one listed first comes first in the committee. */
  predicate KeepsOrder(roster: seq<Address>, committee: seq<Address>)
  {
    forall i, j, p, q :: 0 <= i < j < |roster| && 0 <= p < |committee| && 0 <= q < |committee| ==>
                           (roster[i] == committee[p] && roster[j] == committee[q] ==> p < q)
  }

  /**
   * Recovering the honest roster by party numbers works exactly for a nonempty set of committee members,
   * and lists the address of each party at that party's place. From a committee without repeats, the
   * roster of a set of numbers has no repeats either and keeps the committee's order.
   */
  lemma HonestRecovery(committee: seq<Address>, ids: seq<nat>)
    ensures HonestFromIds(committee, ids).Some? <==> ids != [] && forall i :: 0 <= i < |ids| ==> ids[i] < |committee|
    ensures HonestFromIds(committee, ids).Some? ==>
              && |HonestFromIds(committee, ids).value| == |ids|
              && forall i :: 0 <= i < |ids| ==>
                   ids[i] < |committee| && HonestFromIds(committee, ids).value[i] == committee[ids[i]]
    ensures HonestFromIds(committee, ids).Some? && NoRepeats(committee) && Increasing(ids) ==>
              NoRepeats(HonestFromIds(committee, ids).value) &&
              KeepsOrder(HonestFromIds(committee, ids).value, committee)
  {
    if HonestFromIds(committee, ids).Some? && NoRepeats(committee) && Increasing(ids) {
      forall i, p | 0 <= i < |ids| && 0 <= p < |committee| && committee[ids[i]] == committee[p] ensures p == ids[i] {
        if p < ids[i] || p > ids[i] { assert false; }
      }
    }
  }

  /** The roster tells the party numbers it was recovered from: different sets never give one roster. */
  lemma {:induction false} RosterTellsParties(committee: seq<Address>, a: seq<nat>, b: seq<nat>)
    requires NoRepeats(committee) && HonestFromIds(committee, a).Some?
    ensures HonestFromIds(committee, a) == HonestFromIds(committee, b) <==> a == b
  {
    if HonestFromIds(committee, a) == HonestFromIds(committee, b) {
      var roster := HonestFromIds(committee, a).value;
      assert |roster| == |a| == |b|;
      forall i | 0 <= i < |a| ensures a[i] == b[i] {
        assert roster[i] == committee[a[i]] == committee[b[i]];
      }
    }
  }

  // ---------- whether the committee roster is empty ----------

  /** The committee roster a step writes, if it writes one. */
  function RosterOf(parse: AddressParser, step: Step): Option<seq<Address>>
  {
    match step
    case SetCommittee(roster) => Some(roster)
    case Observe(PublicKeyAggregated(committee, nodes, _)) =>
      if committee != [] then Some(committee) else ParseAll(parse, nodes)
    case Observe(CommitteePublished(nodes)) => ParseAll(parse, nodes)
    case _ => None
  }

  /** A step that names no member at all. */
  predicate NamesEmpty(step: Step)
  {
    match step
    case SetCommittee(roster) => roster == []
    case Observe(PublicKeyAggregated(committee, nodes, _)) => committee == [] && nodes == []
    case Observe(CommitteePublished(nodes)) => nodes == []
    case _ => false
  }

  lemma EmptyRosterIsNamed(parse: AddressParser, step: Step)
    ensures RosterOf(parse, step) == Some([]) <==> NamesEmpty(step)
  {
  }

  /** The last of the first `n` steps that writes a committee roster. */
  function LastSetter(parse: AddressParser, steps: seq<Step>, n: nat): (last: Option<nat>)
    requires n <= |steps|
    ensures last.Some? ==> last.value < n && RosterOf(parse, steps[last.value]).Some?
    ensures forall i :: (if last.Some? then last.value + 1 else 0) <= i < n ==> RosterOf(parse, steps[i]).None?
  {
    if n == 0 then None
    else if RosterOf(parse, steps[n - 1]).Some? then Some(n - 1)
    else LastSetter(parse, steps, n - 1)
  }

  lemma RememberHonestCommittee(c: Context)
    ensures RememberHonest(c).0.committee == c.committee && RememberHonest(c).0.plaintext == c.plaintext
  {
  }

  lemma PublishedCommittee(parse: AddressParser, c: Context, nodes: seq<string>)
    ensures var known := RememberPublished(parse, c, nodes).0;
            && known.committee == (if ParseAll(parse, nodes).Some? then ParseAll(parse, nodes) else c.committee)
            && known.plaintext == c.plaintext
  {
    hide ParseAll;
    hide RememberHonest;
    if ParseAll(parse, nodes).Some? {
      var known := c.(committee := ParseAll(parse, nodes));
      RememberHonestCommittee(known);
      RememberHonestCommittee(known.(honest := ParseAll(parse, nodes)));
    }
  }

  /** An attempt leaves the roster alone, and an aggregator it starts has that roster. */
  lemma TryStartCommittee(c: Context, ciphertext: nat)
    ensures var next := TryStart(c, ciphertext);
            && next.committee == c.committee
            && (c.plaintext.None? && next.plaintext.Some? ==> c.committee == Some(next.plaintext.value.committee))
  {
  }

  /** A step writes exactly its roster, and an aggregator it starts has the roster known after it. */
  lemma StepCommittee(parse: AddressParser, c: Context, step: Step)
    ensures var next := After(parse, c, step);
            && next.committee == (if RosterOf(parse, step).Some? then RosterOf(parse, step) else c.committee)
            && (c.plaintext.None? && next.plaintext.Some? ==> next.committee == Some(next.plaintext.value.committee))
  {
    hide ParseAll;
    hide TryStart;
    hide RememberPublished;
    if step.Observe? {
      match step.event
      case AggregatorChanged(isAggregator) =>
        if c.pending.Some? { TryStartCommittee(c.(active := Some(isAggregator)), c.pending.value); }
      case CiphernodeSelected =>
        if c.pending.Some? { TryStartCommittee(c, c.pending.value); }
      case PublicKeyAggregated(committee, nodes, honest) =>
        var roster := RosterOf(parse, step);
        if c.pending.Some? { TryStartCommittee(c.(committee := roster, honest := Some(honest)), c.pending.value); }
      case CommitteePublished(nodes) =>
        PublishedCommittee(parse, c, nodes);
        var (known, ok) := RememberPublished(parse, c, nodes);
        var next := if ok then known else known.(errors := known.errors + 1);
        if next.pending.Some? { TryStartCommittee(next, next.pending.value); }
      case CiphertextOutputPublished(ciphertext) =>
        TryStartCommittee(c.(pending := Some(ciphertext)), ciphertext);
      case Other =>
    }
  }

  /** The known committee roster is the one the last step to write one has written. */
  lemma {:induction false} CommitteeIsLastWritten(parse: AddressParser, c: Context, steps: seq<Step>, n: nat)
    requires n <= |steps|
    ensures var last := LastSetter(parse, steps, n);
            At(parse, c, steps, n).committee == if last.Some? then RosterOf(parse, steps[last.value]) else c.committee
  {
    hide After;
    hide RosterOf;
    if n > 0 {
      CommitteeIsLastWritten(parse, c, steps, n - 1);
      StepCommittee(parse, At(parse, c, steps, n - 1), steps[n - 1]);
    }
  }

  /** Step `k` is the one that starts the aggregator. */
  predicate StartsAt(parse: AddressParser, c: Context, steps: seq<Step>, k: nat)
    requires k < |steps|
  {
    At(parse, c, steps, k).plaintext.None? && At(parse, c, steps, k + 1).plaintext.Some?
  }

  lemma {:induction false} SomeStepStarts(parse: AddressParser, c: Context, steps: seq<Step>, n: nat) returns (k: nat)
    requires Sound(c) && c.plaintext.None? && n <= |steps| && At(parse, c, steps, n).plaintext.Some?
    ensures k < n && StartsAt(parse, c, steps, k)
  {
    hide After;
    if At(parse, c, steps, n - 1).plaintext.Some? {
      k := SomeStepStarts(parse, c, steps, n - 1);
    } else {
      k := n - 1;
    }
  }

  /**
   * The started aggregator has an empty committee exactly when the last step that wrote a roster, up to
   * the start, named no member; where no step wrote one, it has the roster known before the run.
   */
  lemma EmptyCommitteeExactly(parse: AddressParser, c: Context, steps: seq<Step>, k: nat, n: nat)
    requires Sound(c) && k < n <= |steps| && StartsAt(parse, c, steps, k)
    ensures At(parse, c, steps, n).plaintext.Some?
    ensures At(parse, c, steps, n).plaintext.value.committee == [] <==>
            match LastSetter(parse, steps, k + 1)
            case Some(last) => NamesEmpty(steps[last])
            case None => c.committee == Some([])
  {
    hide After;
    hide RosterOf;
    hide NamesEmpty;
    RunsAreSound(parse, c, steps, k + 1, n);
    StepCommittee(parse, At(parse, c, steps, k), steps[k]);
    assert At(parse, c, steps, k + 1) == After(parse, At(parse, c, steps, k), steps[k]);
    CommitteeIsLastWritten(parse, c, steps, k + 1);
    var last := LastSetter(parse, steps, k + 1);
    if last.Some? { EmptyRosterIsNamed(parse, steps[last.value]); }
  }

  /** Over every run without a step that names no member, a started aggregator has a nonempty committee. */
  lemma CommitteeIsNonempty(parse: AddressParser, c: Context, steps: seq<Step>, n: nat)
    requires Sound(c) && c.plaintext.None? && c.committee != Some([]) && n <= |steps|
    requires forall i :: 0 <= i < n ==> !NamesEmpty(steps[i])
    ensures At(parse, c, steps, n).plaintext.Some? ==> At(parse, c, steps, n).plaintext.value.committee != []
  {
    hide At;
    hide NamesEmpty;
    hide RosterOf;
    if At(parse, c, steps, n).plaintext.Some? {
      var k := SomeStepStarts(parse, c, steps, n);
      EmptyCommitteeExactly(parse, c, steps, k, n);
    }
  }

  // ---------- what the aggregator is started with ----------

  /** A known committee size is that of an odd committee, and asks for one honest member more than half. */
  lemma SizesOfCommittees(meta: Meta)
    ensures SizeOf(meta).Some? <==> meta.thresholdM in {1, 4, 9} && meta.thresholdN == 2 * meta.thresholdM + 1
    ensures SizeOf(meta).Some? ==> SizeOf(meta).value.Honest() == meta.thresholdM + 1
  {
  }

  /** An attempt starts the aggregator exactly if it can and it is not running; why it fails is reported or not. */
  lemma AttemptExactly(c: Context, ciphertext: nat)
    ensures var next := TryStart(c, ciphertext);
            var open := c.keyshareReady && c.plaintext.None?;
            var rosters := c.committee.Some? && c.honest.Some? && c.honest.value != [];
            && (next.starts == c.starts + 1 <==> open && CanStart(c))
            && (next.starts == c.starts || next.starts == c.starts + 1)
            && next.errors == c.errors
                              + (if open && (c.meta.None? || (rosters && SizeOf(c.meta.value).None?)) then 1 else 0)
            && next.snapshot == (if open && c.meta.Some? && rosters then Some(ciphertext) else c.snapshot)
            && (open && CanStart(c) ==>
                  next.plaintext == Some(Aggregator(ciphertext, SizeOf(c.meta.value).value, c.committee.value,
                                                    c.honest.value, c.active == Some(true))))
            && next == c.(plaintext := next.plaintext, starts := next.starts, errors := next.errors,
                          snapshot := next.snapshot)
  {
  }

  /** The aggregator as it would be started from what is known now. */
  ghost predicate StartedFrom(a: Aggregator, c: Context)
  {
    && c.pending == Some(a.ciphertext) && c.committee == Some(a.committee) && c.honest == Some(a.honest)
    && c.meta.Some? && SizeOf(c.meta.value) == Some(a.size)
    && a.initiallyActive == (c.active == Some(true))
  }

  lemma AttemptStartsFrom(c: Context)
    requires c.pending.Some? && c.plaintext.None?
    ensures var next := TryStart(c, c.pending.value);
            && (next.plaintext.Some? ==> StartedFrom(next.plaintext.value, next))
            && next.pending == c.pending && next.active == c.active && next.meta == c.meta
  {
  }

  lemma RememberHonestKeepsRest(c: Context)
    ensures var next := RememberHonest(c).0;
            next == c.(honest := next.honest)
  {
  }

  lemma PublishedKeepsRest(parse: AddressParser, c: Context, nodes: seq<string>)
    ensures var next := RememberPublished(parse, c, nodes).0;
            next == c.(committee := next.committee, honest := next.honest)
  {
    hide ParseAll;
    hide RememberHonest;
    if ParseAll(parse, nodes).Some? {
      var known := c.(committee := ParseAll(parse, nodes));
      RememberHonestKeepsRest(known);
      RememberHonestKeepsRest(known.(honest := ParseAll(parse, nodes)));
    }
  }

  /** What a step writes, and that an aggregator it starts is started from what is known after it. */
  lemma StepStartsFrom(parse: AddressParser, c: Context, step: Step)
    requires c.plaintext.None?
    ensures var next := After(parse, c, step);
            && (next.plaintext.Some? ==> StartedFrom(next.plaintext.value, next))
  {
    hide ParseAll;
    hide TryStart;
    hide RememberPublished;
    hide StartedFrom;
    if step.Observe? {
      match step.event
      case AggregatorChanged(isAggregator) =>
        if c.pending.Some? { AttemptStartsFrom(c.(active := Some(isAggregator))); }
      case CiphernodeSelected =>
        if c.pending.Some? { AttemptStartsFrom(c); }
      case PublicKeyAggregated(committee, nodes, honest) =>
        var roster := RosterOf(parse, step);
        if c.pending.Some? { AttemptStartsFrom(c.(committee := roster, honest := Some(honest))); }
      case CommitteePublished(nodes) =>
        PublishedKeepsRest(parse, c, nodes);
        var (known, ok) := RememberPublished(parse, c, nodes);
        var next := if ok then known else known.(errors := known.errors + 1);
        if next.pending.Some? { AttemptStartsFrom(next); }
      case CiphertextOutputPublished(ciphertext) =>
        AttemptStartsFrom(c.(pending := Some(ciphertext)));
      case Other =>
    }
  }

  lemma TryStartKeepsKnown(c: Context, ciphertext: nat)
    ensures var next := TryStart(c, ciphertext);
            next.pending == c.pending && next.active == c.active && next.meta == c.meta && next.honest == c.honest
  {
  }

  lemma StepWrites(parse: AddressParser, c: Context, step: Step)
    ensures var next := After(parse, c, step);
            && next.pending == (match step case Observe(CiphertextOutputPublished(x)) => Some(x) case _ => c.pending)
            && next.active == (match step case Observe(AggregatorChanged(x)) => Some(x) case _ => c.active)
            && next.meta == (match step case SetMeta(x) => Some(x) case _ => c.meta)
  {
    hide ParseAll;
    hide TryStart;
    hide RememberPublished;
    if step.Observe? {
      match step.event
      case AggregatorChanged(isAggregator) =>
        if c.pending.Some? { TryStartKeepsKnown(c.(active := Some(isAggregator)), c.pending.value); }
      case CiphernodeSelected =>
        if c.pending.Some? { TryStartKeepsKnown(c, c.pending.value); }
      case PublicKeyAggregated(committee, nodes, honest) =>
        var roster := RosterOf(parse, step);
        if c.pending.Some? { TryStartKeepsKnown(c.(committee := roster, honest := Some(honest)), c.pending.value); }
      case CommitteePublished(nodes) =>
        PublishedKeepsRest(parse, c, nodes);
        var (known, ok) := RememberPublished(parse, c, nodes);
        var next := if ok then known else known.(errors := known.errors + 1);
        if next.pending.Some? { TryStartKeepsKnown(next, next.pending.value); }
      case CiphertextOutputPublished(ciphertext) =>
        TryStartKeepsKnown(c.(pending := Some(ciphertext)), ciphertext);
      case Other =>
    }
  }

  /** The last ciphertext, activity and metadata among the first `n` steps, on top of what was known before. */
  function LastCiphertext(c: Context, steps: seq<Step>, n: nat): Option<nat>
    requires n <= |steps|
  {
    if n == 0 then c.pending
    else match steps[n - 1]
      case Observe(CiphertextOutputPublished(x)) => Some(x)
      case _ => LastCiphertext(c, steps, n - 1)
  }

  function LastActivity(c: Context, steps: seq<Step>, n: nat): Option<bool>
    requires n <= |steps|
  {
    if n == 0 then c.active
    else match steps[n - 1] case Observe(AggregatorChanged(x)) => Some(x) case _ => LastActivity(c, steps, n - 1)
  }

  function LastMeta(c: Context, steps: seq<Step>, n: nat): Option<Meta>
    requires n <= |steps|
  {
    if n == 0 then c.meta
    else match steps[n - 1] case SetMeta(x) => Some(x) case _ => LastMeta(c, steps, n - 1)
  }

  lemma {:induction false} KnownIsLastWritten(parse: AddressParser, c: Context, steps: seq<Step>, n: nat)
    requires n <= |steps|
    ensures var known := At(parse, c, steps, n);
            && known.pending == LastCiphertext(c, steps, n)
            && known.active == LastActivity(c, steps, n)
            && known.meta == LastMeta(c, steps, n)
  {
    hide After;
    if n > 0 {
      KnownIsLastWritten(parse, c, steps, n - 1);
      StepWrites(parse, At(parse, c, steps, n - 1), steps[n - 1]);
    }
  }

  /**
   * The aggregator a run starts has the last ciphertext, the size of the last metadata, the activity last
   * told, and the rosters as they are known after the starting step; no later step changes it.
   */
  lemma StartedWithLastKnown(parse: AddressParser, c: Context, steps: seq<Step>, k: nat, n: nat)
    requires Sound(c) && k < n <= |steps| && StartsAt(parse, c, steps, k)
    ensures At(parse, c, steps, n).plaintext.Some?
    ensures var a, known := At(parse, c, steps, n).plaintext.value, At(parse, c, steps, k + 1);
            && LastCiphertext(c, steps, k + 1) == Some(a.ciphertext)
            && LastMeta(c, steps, k + 1).Some? && SizeOf(LastMeta(c, steps, k + 1).value) == Some(a.size)
            && a.initiallyActive == (LastActivity(c, steps, k + 1) == Some(true))
            && known.committee == Some(a.committee) && known.honest == Some(a.honest)
  {
    hide After;
    hide LastCiphertext;
    hide LastActivity;
    hide LastMeta;
    hide SizeOf;
    RunsAreSound(parse, c, steps, k + 1, n);
    StepStartsFrom(parse, At(parse, c, steps, k), steps[k]);
    assert At(parse, c, steps, k + 1) == After(parse, At(parse, c, steps, k), steps[k]);
    KnownIsLastWritten(parse, c, steps, k + 1);
  }

  // ---------- what becomes of the honest roster ----------

  /**
   * A published committee is the honest roster too if it has as many members as the committee size asks
   * for; otherwise a roster that is known stays, and one that is not is recovered from party numbers.
   */
  lemma PublishedHonest(parse: AddressParser, c: Context, nodes: seq<string>)
    ensures var (next, ok) := RememberPublished(parse, c, nodes);
            match ParseAll(parse, nodes)
            case None => next == c && !ok
            case Some(roster) =>
              var full := c.meta.Some? && SizeOf(c.meta.value).Some? && SizeOf(c.meta.value).value.Honest() == |roster|;
              var recovered := if c.honestPartyIds.Some? then HonestFromIds(roster, c.honestPartyIds.value) else None;
              && next.honest == (if full then Some(roster) else if c.honest.Some? then c.honest else recovered)
              && (!ok <==> !full && c.honest.None? && c.honestPartyIds.Some? && recovered.None?)
  {
    hide ParseAll;
    hide HonestFromIds;
  }

  /** Every node string must parse, and each gives its own address. */
  lemma {:induction false} ParsedInOrder(parse: AddressParser, nodes: seq<string>)
    ensures ParseAll(parse, nodes).Some? <==> forall i :: 0 <= i < |nodes| ==> parse(nodes[i]).Some?
    ensures ParseAll(parse, nodes).Some? ==>
              && |ParseAll(parse, nodes).value| == |nodes|
              && forall i :: 0 <= i < |nodes| ==> parse(nodes[i]) == Some(ParseAll(parse, nodes).value[i])
  {
    if nodes != [] {
      ParsedInOrder(parse, nodes[1..]);
      if ParseAll(parse, nodes).Some? {
        forall i | 0 <= i < |nodes|
          ensures parse(nodes[i]).Some? && parse(nodes[i]).value == ParseAll(parse, nodes).value[i]
        {
          if i > 0 { assert nodes[i] == nodes[1..][i - 1]; }
        }
      }
    }
  }

  /** When a step reports an error: a roster it cannot read or use, or an attempt that cannot succeed. */
  lemma RostersReported(parse: AddressParser, c: Context, event: Event)
    requires c.pending.None?
    ensures OnEvent(parse, c, event).errors == c.errors +
            match event
            case PublicKeyAggregated(committee, nodes, honest) =>
              if (committee == [] && ParseAll(parse, nodes).None?) || honest == [] then 1 else 0
            case CommitteePublished(nodes) => if RememberPublished(parse, c, nodes).1 then 0 else 1
            case CiphertextOutputPublished(_) => if c.keyshareReady && c.plaintext.None? && c.meta.None? then 1
                                                 else if c.keyshareReady && c.plaintext.None? && c.committee.Some? &&
                                                         c.honest.Some? && c.honest.value != [] &&
                                                         SizeOf(c.meta.value).None? then 1
                                                 else 0
            case _ => 0
  {
    hide ParseAll;
    hide RememberPublished;
    if event.CommitteePublished? { PublishedKeepsRest(parse, c, event.nodes); }
  }
}
