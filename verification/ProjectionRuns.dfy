/** What the two reward views keep over every run of the projection. */
module ProjectionRuns {
  import opened Bytes
  import opened E3Ids
  import opened Rewards
  import opened Projection

  function ChainRewards(chains: map<nat, ChainState>, chainId: nat): seq<ChainReward>
  {
    ChainAt(chains, chainId).rewards
  }

  function E3Rewards(e3s: map<string, E3State>, e3Id: string): seq<RewardView>
  {
    if e3Id in e3s then e3s[e3Id].rewards else []
  }

  /** Which credits belong to the operator running the dashboard. */
  function LocalMask(rewards: seq<RewardView>, local: string): (mask: seq<bool>)
    ensures |mask| == |rewards|
  {
    seq(|rewards|, i requires 0 <= i < |rewards| => NormalizeAddress(rewards[i].account) == local)
  }

  /** The operator's credits for one E3 as the chain view shows them. */
  function ChainView(s: State, e: E3id): seq<RewardView>
  {
    var rewards := ChainRewards(s.chains, e.chainId);
    Selected(Views(rewards), MaskFor(rewards, e.ToString()))
  }

  /** The operator's credits for one E3 as the E3 view shows them. */
  function LocalView(s: State, local: string, e: E3id): seq<RewardView>
  {
    var rewards := E3Rewards(s.e3s, e.ToString());
    Selected(rewards, LocalMask(rewards, local))
  }

  // ---------- how one event moves each list of credits ----------

  lemma ChainRewardsAfter(parse: Parser, local: string, chains: map<nat, ChainState>, data: Data, c: nat)
    ensures var before, after := ChainRewards(chains, c), ChainRewards(ChainStep(parse, local, chains, data), c);
            if data.RewardCredited? && NormalizeAddress(data.account) == local && data.e3.chainId == c then
              after == before + [ChainReward(data.e3.ToString(), Credit(data.account, data.token, data.amount))]
            else if data.RewardClaimed? && NormalizeAddress(data.account) == local && data.e3.chainId == c then
              after == ChainClaimed(parse, before, data.e3.ToString(), data.account, data.token, data.amount)
            else after == before
  {
    hide NormalizeAddress;
    hide ChainClaimed;
  }

  lemma AffectedRewards(parse: Parser, s: E3State, data: Data, view: EventView)
    ensures Affected(parse, s, data, view).rewards ==
            if data.RewardCredited? then s.rewards + [Credit(data.account, data.token, data.amount)]
            else if data.RewardClaimed? then
              ClaimedUnder(parse, s.rewards, AllOf(|s.rewards|), data.account, data.token, data.amount)
            else s.rewards
  {
    hide NormalizeAddress;
    hide ClaimedUnder;
    hide Zip;
  }

  lemma E3RewardsAfter(parse: Parser, e3s: map<string, E3State>, event: Event, e: E3id)
    ensures var data := event.data;
            var before := E3Rewards(e3s, e.ToString());
            var after := E3Rewards(E3Step(parse, e3s, data, View(event)), e.ToString());
            if data.RewardCredited? && data.e3 == e then
              after == before + [Credit(data.account, data.token, data.amount)]
            else if data.RewardClaimed? && data.e3 == e then
              after == Claimed(parse, before, data.account, data.token, data.amount)
            else after == before
  {
    hide Affected;
    hide ClaimedUnder;
    hide Claimed;
    var view := View(event);
    if event.data.E3().Some? {
      var about := event.data.E3().value;
      PrintedIdsAreUnique(about, e);
      if about == e {
        var s := Touched(E3At(e3s, e.ToString(), view), view);
        AffectedRewards(parse, s, event.data, view);
        if event.data.RewardClaimed? {
          ClaimOnAll(parse, s.rewards, event.data.account, event.data.token, event.data.amount);
        }
      }
    }
  }

  // ---------- the two views agree ----------

  lemma SelectedSnoc(rewards: seq<RewardView>, mask: seq<bool>, r: RewardView, b: bool)
    requires |mask| == |rewards|
    ensures Selected(rewards + [r], mask + [b]) == Selected(rewards, mask) + if b then [r] else []
  {
    assert (rewards + [r])[..|rewards|] == rewards && (mask + [b])[..|rewards|] == mask;
  }

  lemma CreditKeepsAgreement(parse: Parser, local: string, s: State, event: Event, e: E3id)
    requires event.data.RewardCredited?
    requires ChainView(s, e) == LocalView(s, local, e)
    ensures ChainView(Applied(parse, local, s, event), e) == LocalView(Applied(parse, local, s, event), local, e)
  {
    hide NormalizeAddress;
    hide Selected;
    hide ChainStep;
    hide E3Step;
    var d := event.data;
    var credit := Credit(d.account, d.token, d.amount);
    ChainRewardsAfter(parse, local, s.chains, d, e.chainId);
    E3RewardsAfter(parse, s.e3s, event, e);
    PrintedIdsAreUnique(d.e3, e);
    var isLocal := NormalizeAddress(d.account) == local;
    var cs, es := ChainRewards(s.chains, e.chainId), E3Rewards(s.e3s, e.ToString());
    if isLocal && d.e3.chainId == e.chainId {
      var added := ChainReward(d.e3.ToString(), credit);
      assert Views(cs + [added]) == Views(cs) + [credit];
      assert MaskFor(cs + [added], e.ToString()) == MaskFor(cs, e.ToString()) + [d.e3 == e];
      SelectedSnoc(Views(cs), MaskFor(cs, e.ToString()), credit, d.e3 == e);
      assert ChainView(s, e) + [] == ChainView(s, e);
    }
    if d.e3 == e {
      assert LocalMask(es + [credit], local) == LocalMask(es, local) + [isLocal];
      SelectedSnoc(es, LocalMask(es, local), credit, isLocal);
      assert LocalView(s, local, e) + [] == LocalView(s, local, e);
    }
  }

  /** A claim on one E3 leaves what the chain view shows of every other E3 alone. */
  lemma ChainClaimOnView(
    parse: Parser, rewards: seq<ChainReward>, claimedId: string, viewedId: string, account: string,
    token: string, amount: string)
    ensures var after := ChainClaimed(parse, rewards, claimedId, account, token, amount);
            var before := Selected(Views(rewards), MaskFor(rewards, viewedId));
            Selected(Views(after), MaskFor(after, viewedId))
            == if claimedId == viewedId then Claimed(parse, before, account, token, amount) else before
  {
    hide Selected;
    hide Accepts;
    hide Claimed;
    hide Flip;
    var views := Views(rewards);
    var mask := MaskFor(rewards, claimedId);
    var changed := ClaimedUnder(parse, views, mask, account, token, amount);
    var after := ChainClaimed(parse, rewards, claimedId, account, token, amount);
    assert Views(after) == changed;
    assert MaskFor(after, viewedId) == MaskFor(rewards, viewedId);
    if claimedId == viewedId {
      ClaimThenSelect(parse, views, mask, account, token, amount);
    } else {
      SelectionUnchanged(views, changed, MaskFor(rewards, viewedId));
    }
  }

  /** A claim by one account, seen through the operator's credits only. */
  lemma ClaimOnLocal(
    parse: Parser, local: string, rewards: seq<RewardView>, account: string, token: string, amount: string)
    ensures var after := Claimed(parse, rewards, account, token, amount);
            var before := Selected(rewards, LocalMask(rewards, local));
            Selected(after, LocalMask(after, local))
            == if NormalizeAddress(account) == local then Claimed(parse, before, account, token, amount) else before
  {
    hide Selected;
    hide Accepts;
    hide NormalizeAddress;
    var after := Claimed(parse, rewards, account, token, amount);
    assert LocalMask(after, local) == LocalMask(rewards, local);
    if NormalizeAddress(account) == local {
      SelectThroughClaim(parse, rewards, LocalMask(rewards, local), account, token, amount);
    } else {
      SelectionUnchanged(rewards, after, LocalMask(rewards, local));
    }
  }

  lemma ClaimKeepsAgreement(parse: Parser, local: string, s: State, event: Event, e: E3id)
    requires event.data.RewardClaimed?
    requires ChainView(s, e) == LocalView(s, local, e)
    ensures ChainView(Applied(parse, local, s, event), e) == LocalView(Applied(parse, local, s, event), local, e)
  {
    hide NormalizeAddress;
    hide Selected;
    hide ChainStep;
    hide E3Step;
    hide Claimed;
    hide ChainClaimed;
    var d := event.data;
    ChainRewardsAfter(parse, local, s.chains, d, e.chainId);
    E3RewardsAfter(parse, s.e3s, event, e);
    PrintedIdsAreUnique(d.e3, e);
    ChainClaimOnView(
      parse, ChainRewards(s.chains, e.chainId), d.e3.ToString(), e.ToString(), d.account, d.token, d.amount);
    ClaimOnLocal(parse, local, E3Rewards(s.e3s, e.ToString()), d.account, d.token, d.amount);
  }

  /**
   * On every stream of events, for every E3: the operator's credits under the chain are the
   * operator's credits under the E3, in the same order and with the same claimed marks.
   */
  lemma {:induction false} RewardViewsAgree(parse: Parser, local: string, events: seq<Event>, e: E3id)
    ensures ChainView(Run(parse, local, events), e) == LocalView(Run(parse, local, events), local, e)
  {
    hide NormalizeAddress;
    hide Applied;
    if events == [] {
      assert Views([]) == [] && MaskFor([], e.ToString()) == [] && LocalMask([], local) == [];
    } else {
      var last := events[|events| - 1];
      var s := Run(parse, local, events[..|events| - 1]);
      RewardViewsAgree(parse, local, events[..|events| - 1], e);
      if last.data.RewardCredited? {
        CreditKeepsAgreement(parse, local, s, last, e);
      } else if last.data.RewardClaimed? {
        ClaimKeepsAgreement(parse, local, s, last, e);
      } else {
        OtherKeepsViews(parse, local, s, last, e);
      }
    }
  }

  lemma OtherKeepsViews(parse: Parser, local: string, s: State, event: Event, e: E3id)
    requires !event.data.RewardCredited? && !event.data.RewardClaimed?
    ensures ChainView(Applied(parse, local, s, event), e) == ChainView(s, e)
    ensures LocalView(Applied(parse, local, s, event), local, e) == LocalView(s, local, e)
  {
    hide ChainStep;
    hide E3Step;
    hide Selected;
    ChainRewardsAfter(parse, local, s.chains, event.data, e.chainId);
    E3RewardsAfter(parse, s.e3s, event, e);
  }

  // ---------- conservation over runs ----------

  /** The sum of the claims for one E3 that were accepted along a stream. */
  function AcceptedTotal(parse: Parser, local: string, events: seq<Event>, e: E3id): nat
  {
    if events == [] then 0
    else
      var front, d := events[..|events| - 1], events[|events| - 1].data;
      AcceptedTotal(parse, local, front, e)
      + if d.RewardClaimed? && d.e3 == e
           && Accepts(parse, E3Rewards(Run(parse, local, front).e3s, e.ToString()), d.account, d.token, d.amount)
        then parse(d.amount).value else 0
  }

  /** The sum of the legible credits for one E3 along a stream. */
  function CreditedTotal(parse: Parser, events: seq<Event>, e: E3id): nat
  {
    if events == [] then 0
    else
      var d := events[|events| - 1].data;
      CreditedTotal(parse, events[..|events| - 1], e)
      + if d.RewardCredited? && d.e3 == e && parse(d.amount).Some? then parse(d.amount).value else 0
  }

  lemma CreditedSnoc(parse: Parser, rewards: seq<RewardView>, r: RewardView)
    ensures Credited(parse, rewards + [r]) == Credited(parse, rewards) + Amount(parse, r)
    ensures !r.claimed ==> Flagged(parse, rewards + [r]) == Flagged(parse, rewards)
  {
    assert (rewards + [r])[..|rewards|] == rewards;
  }

  lemma ClaimOnAllConserves(parse: Parser, rewards: seq<RewardView>, account: string, token: string, amount: string)
    ensures var after := Claimed(parse, rewards, account, token, amount);
            && Credited(parse, after) == Credited(parse, rewards)
            && Flagged(parse, after) == Flagged(parse, rewards)
                 + (if Accepts(parse, rewards, account, token, amount) then parse(amount).value else 0)
            && forall i :: 0 <= i < |rewards| ==> after[i] == rewards[i] || after[i] == rewards[i].(claimed := true)
  {
    hide Accepts;
    hide Claimed;
    hide ClaimedUnder;
    hide Selected;
    ClaimOnAll(parse, rewards, account, token, amount);
    AllSelected(rewards);
    ClaimConserves(parse, rewards, AllOf(|rewards|), account, token, amount);
  }

  /**
   * Over any stream, for every E3: what is marked claimed is exactly the sum of the accepted
   * claims, and it never exceeds what was credited.
   */
  lemma {:induction false} ClaimsAreConserved(parse: Parser, local: string, events: seq<Event>, e: E3id)
    ensures var rewards := E3Rewards(Run(parse, local, events).e3s, e.ToString());
            && Flagged(parse, rewards) == AcceptedTotal(parse, local, events, e)
            && Credited(parse, rewards) == CreditedTotal(parse, events, e)
            && AcceptedTotal(parse, local, events, e) <= CreditedTotal(parse, events, e)
  {
    hide E3Step;
    hide ChainStep;
    hide Accepts;
    hide Claimed;
    var rewards := E3Rewards(Run(parse, local, events).e3s, e.ToString());
    if events != [] {
      var front, last := events[..|events| - 1], events[|events| - 1];
      var before := E3Rewards(Run(parse, local, front).e3s, e.ToString());
      ClaimsAreConserved(parse, local, front, e);
      E3RewardsAfter(parse, Run(parse, local, front).e3s, last, e);
      if last.data.RewardCredited? && last.data.e3 == e {
        CreditedSnoc(parse, before, Credit(last.data.account, last.data.token, last.data.amount));
      } else if last.data.RewardClaimed? && last.data.e3 == e {
        ClaimOnAllConserves(parse, before, last.data.account, last.data.token, last.data.amount);
      }
    }
    FlaggedAtMostCredited(parse, rewards);
  }

  /** Along a stream credits are only added at the end, and a claimed mark is never taken back. */
  lemma {:induction false} CreditsAreNeverTakenBack(parse: Parser, local: string, events: seq<Event>, n: nat, e: E3id)
    requires n <= |events|
    ensures var early := E3Rewards(Run(parse, local, events[..n]).e3s, e.ToString());
            var late := E3Rewards(Run(parse, local, events).e3s, e.ToString());
            && |early| <= |late|
            && forall i :: 0 <= i < |early| ==> late[i] == early[i] || late[i] == early[i].(claimed := true)
    decreases |events|
  {
    hide E3Step;
    hide ChainStep;
    hide Claimed;
    hide Accepts;
    if n < |events| {
      var front, last := events[..|events| - 1], events[|events| - 1];
      assert front[..n] == events[..n];
      CreditsAreNeverTakenBack(parse, local, front, n, e);
      E3RewardsAfter(parse, Run(parse, local, front).e3s, last, e);
      if last.data.RewardClaimed? && last.data.e3 == e {
        ClaimOnAllConserves(parse, E3Rewards(Run(parse, local, front).e3s, e.ToString()),
                            last.data.account, last.data.token, last.data.amount);
      }
    } else {
      assert events[..n] == events;
    }
  }

  // ---------- the same for the chain view ----------

  /** A credit or claim of the operator on a chain. */
  predicate OperatorsOn(local: string, d: Data, chainId: nat)
  {
    (d.RewardCredited? || d.RewardClaimed?) && d.e3.chainId == chainId && NormalizeAddress(d.account) == local
  }

  /** What the operator was paid on a chain by the claims the E3 views accepted, over all its E3s. */
  function ChainAcceptedTotal(parse: Parser, local: string, events: seq<Event>, chainId: nat): nat
  {
    if events == [] then 0
    else
      var front, d := events[..|events| - 1], events[|events| - 1].data;
      ChainAcceptedTotal(parse, local, front, chainId)
      + if d.RewardClaimed? && OperatorsOn(local, d, chainId)
           && Accepts(parse, E3Rewards(Run(parse, local, front).e3s, d.e3.ToString()), d.account, d.token, d.amount)
        then parse(d.amount).value else 0
  }

  /** The sum of the operator's legible credits on a chain, over all its E3s. */
  function ChainCreditedTotal(parse: Parser, local: string, events: seq<Event>, chainId: nat): nat
  {
    if events == [] then 0
    else
      var d := events[|events| - 1].data;
      ChainCreditedTotal(parse, local, events[..|events| - 1], chainId)
      + if d.RewardCredited? && OperatorsOn(local, d, chainId) && parse(d.amount).Some?
        then parse(d.amount).value else 0
  }

  /** On every stream, the chain view accepts one of the operator's claims exactly when the E3 view does. */
  lemma SameClaimsAccepted(
    parse: Parser, local: string, events: seq<Event>, e: E3id, account: string, token: string, amount: string)
    requires NormalizeAddress(account) == local
    ensures var s := Run(parse, local, events);
            Accepts(parse, ChainView(s, e), account, token, amount) <==>
            Accepts(parse, E3Rewards(s.e3s, e.ToString()), account, token, amount)
  {
    hide NormalizeAddress;
    hide Selected;
    hide MatchSum;
    hide MatchesParse;
    hide Run;
    var rewards := E3Rewards(Run(parse, local, events).e3s, e.ToString());
    RewardViewsAgree(parse, local, events, e);
    SelectionKeepsMatches(
      parse, rewards, LocalMask(rewards, local), NormalizeAddress(account), NormalizeAddress(token));
  }

  lemma ChainClaimConserves(
    parse: Parser, rewards: seq<ChainReward>, e3Id: string, account: string, token: string, amount: string)
    ensures var before, after := Views(rewards), Views(ChainClaimed(parse, rewards, e3Id, account, token, amount));
            var accepted := Accepts(parse, Selected(before, MaskFor(rewards, e3Id)), account, token, amount);
            && |after| == |before|
            && Credited(parse, after) == Credited(parse, before)
            && Flagged(parse, after) == Flagged(parse, before) + (if accepted then parse(amount).value else 0)
            && forall i :: 0 <= i < |before| ==> after[i] == before[i] || after[i] == before[i].(claimed := true)
  {
    hide Accepts;
    hide Selected;
    hide ClaimedUnder;
    hide Flagged;
    hide Credited;
    var mask := MaskFor(rewards, e3Id);
    var changed := ClaimedUnder(parse, Views(rewards), mask, account, token, amount);
    assert Views(ChainClaimed(parse, rewards, e3Id, account, token, amount)) == changed;
    ClaimConserves(parse, Views(rewards), mask, account, token, amount);
  }

  lemma ChainStepConserves(parse: Parser, local: string, front: seq<Event>, event: Event, chainId: nat)
    ensures var s, d := Run(parse, local, front), event.data;
            var before := Views(ChainRewards(s.chains, chainId));
            var after := Views(ChainRewards(ChainStep(parse, local, s.chains, d), chainId));
            var claimed := d.RewardClaimed? && OperatorsOn(local, d, chainId) &&
                           Accepts(parse, E3Rewards(s.e3s, d.e3.ToString()), d.account, d.token, d.amount);
            var credited := d.RewardCredited? && OperatorsOn(local, d, chainId) && parse(d.amount).Some?;
            && Flagged(parse, after) == Flagged(parse, before) + (if claimed then parse(d.amount).value else 0)
            && Credited(parse, after) == Credited(parse, before) + (if credited then parse(d.amount).value else 0)
  {
    hide Run;
    hide ChainStep;
    hide Accepts;
    hide ChainClaimed;
    hide NormalizeAddress;
    hide Flagged;
    hide Credited;
    hide Selected;
    var s, d := Run(parse, local, front), event.data;
    var before := ChainRewards(s.chains, chainId);
    ChainRewardsAfter(parse, local, s.chains, d, chainId);
    if OperatorsOn(local, d, chainId) {
      if d.RewardCredited? {
        var credit := Credit(d.account, d.token, d.amount);
        CreditedSnoc(parse, Views(before), credit);
        assert Views(before + [ChainReward(d.e3.ToString(), credit)]) == Views(before) + [credit];
      } else {
        SameClaimsAccepted(parse, local, front, d.e3, d.account, d.token, d.amount);
        ChainClaimConserves(parse, before, d.e3.ToString(), d.account, d.token, d.amount);
      }
    }
  }

  /**
   * Over any stream, for every chain: what the chain view marks claimed is exactly the sum of the
   * operator's claims that the views of the chain's E3s accepted, and never exceeds the operator's credits.
   */
  lemma {:induction false} ChainClaimsAreConserved(parse: Parser, local: string, events: seq<Event>, chainId: nat)
    ensures var rewards := Views(ChainRewards(Run(parse, local, events).chains, chainId));
            && Flagged(parse, rewards) == ChainAcceptedTotal(parse, local, events, chainId)
            && Credited(parse, rewards) == ChainCreditedTotal(parse, local, events, chainId)
            && ChainAcceptedTotal(parse, local, events, chainId) <= ChainCreditedTotal(parse, local, events, chainId)
  {
    hide E3Step;
    hide ChainStep;
    hide Accepts;
    hide ChainRewards;
    hide NormalizeAddress;
    var rewards := Views(ChainRewards(Run(parse, local, events).chains, chainId));
    FlaggedAtMostCredited(parse, rewards);
    if events == [] {
      NoChainRewards(chainId);
    } else {
      hide Flagged;
      hide Credited;
      hide Views;
      var front, last := events[..|events| - 1], events[|events| - 1];
      ChainClaimsAreConserved(parse, local, front, chainId);
      ChainStepConserves(parse, local, front, last, chainId);
    }
  }

  lemma NoChainRewards(chainId: nat)
    ensures ChainRewards(map[], chainId) == []
  {
  }

  /** The chain view too only adds credits at the end, and never takes a claimed mark back. */
  lemma {:induction false} ChainCreditsAreNeverTakenBack(
    parse: Parser, local: string, events: seq<Event>, n: nat, chainId: nat)
    requires n <= |events|
    ensures var early := Views(ChainRewards(Run(parse, local, events[..n]).chains, chainId));
            var late := Views(ChainRewards(Run(parse, local, events).chains, chainId));
            && |early| <= |late|
            && forall i :: 0 <= i < |early| ==> late[i] == early[i] || late[i] == early[i].(claimed := true)
    decreases |events|
  {
    hide E3Step;
    hide ChainStep;
    hide Accepts;
    hide ChainClaimed;
    hide NormalizeAddress;
    if n < |events| {
      var front, d := events[..|events| - 1], events[|events| - 1].data;
      var s := Run(parse, local, front);
      assert front[..n] == events[..n];
      ChainCreditsAreNeverTakenBack(parse, local, front, n, chainId);
      ChainRewardsAfter(parse, local, s.chains, d, chainId);
      if d.RewardClaimed? && d.e3.chainId == chainId && NormalizeAddress(d.account) == local {
        ChainClaimConserves(
          parse, ChainRewards(s.chains, chainId), d.e3.ToString(), d.account, d.token, d.amount);
      }
    } else {
      assert events[..n] == events;
    }
  }

  // ---------- which credits there are ----------

  /** The credits for one E3, as they came in. */
  function CreditsIn(events: seq<Event>, e: E3id): seq<RewardView>
  {
    if events == [] then []
    else
      var d := events[|events| - 1].data;
      CreditsIn(events[..|events| - 1], e)
      + if d.RewardCredited? && d.e3 == e then [RewardView(d.account, Some(d.token), d.amount, false)] else []
  }

  /** The operator's credits on one chain, each with its E3, as they came in. */
  function ChainCreditsIn(events: seq<Event>, local: string, chainId: nat): seq<ChainReward>
  {
    if events == [] then []
    else
      var d := events[|events| - 1].data;
      ChainCreditsIn(events[..|events| - 1], local, chainId)
      + if d.RewardCredited? && OperatorsOn(local, d, chainId) then
          [ChainReward(d.e3.ToString(), RewardView(d.account, Some(d.token), d.amount, false))]
        else []
  }

  /** On every stream an E3 lists exactly its credits, in order; only the claimed marks differ. */
  lemma {:induction false} E3ListsItsCredits(parse: Parser, local: string, events: seq<Event>, e: E3id)
    ensures var rewards := E3Rewards(Run(parse, local, events).e3s, e.ToString());
            && |rewards| == |CreditsIn(events, e)|
            && forall i :: 0 <= i < |rewards| ==> rewards[i].(claimed := false) == CreditsIn(events, e)[i]
  {
    hide E3Step;
    hide ChainStep;
    hide Claimed;
    hide Accepts;
    if events != [] {
      var front, last := events[..|events| - 1], events[|events| - 1];
      var before := E3Rewards(Run(parse, local, front).e3s, e.ToString());
      E3ListsItsCredits(parse, local, front, e);
      E3RewardsAfter(parse, Run(parse, local, front).e3s, last, e);
      if last.data.RewardClaimed? && last.data.e3 == e {
        ClaimOnAllConserves(parse, before, last.data.account, last.data.token, last.data.amount);
      }
    }
  }

  /** And a chain lists exactly the operator's credits on it, each under its E3. */
  lemma {:induction false} ChainListsItsCredits(parse: Parser, local: string, events: seq<Event>, chainId: nat)
    ensures var rewards := ChainRewards(Run(parse, local, events).chains, chainId);
            var credits := ChainCreditsIn(events, local, chainId);
            && |rewards| == |credits|
            && forall i :: 0 <= i < |rewards| ==>
                 rewards[i].e3Id == credits[i].e3Id && rewards[i].view.(claimed := false) == credits[i].view
  {
    hide E3Step;
    hide ChainStep;
    hide Accepts;
    hide ChainClaimed;
    hide NormalizeAddress;
    if events != [] {
      var front, d := events[..|events| - 1], events[|events| - 1].data;
      var before := ChainRewards(Run(parse, local, front).chains, chainId);
      ChainListsItsCredits(parse, local, front, chainId);
      ChainRewardsAfter(parse, local, Run(parse, local, front).chains, d, chainId);
      if d.RewardClaimed? && OperatorsOn(local, d, chainId) {
        var id := d.e3.ToString();
        ChainClaimConserves(parse, before, id, d.account, d.token, d.amount);
        ChainClaimKeepsIds(parse, before, id, d.account, d.token, d.amount);
      }
    }
  }

  lemma ChainClaimKeepsIds(
    parse: Parser, rewards: seq<ChainReward>, e3Id: string, account: string, token: string, amount: string)
    ensures var after := ChainClaimed(parse, rewards, e3Id, account, token, amount);
            && |after| == |rewards|
            && forall i :: 0 <= i < |rewards| ==>
                 && after[i].e3Id == rewards[i].e3Id
                 && Views(after)[i] == after[i].view && Views(rewards)[i] == rewards[i].view
  {
    hide ClaimedUnder;
  }
}
