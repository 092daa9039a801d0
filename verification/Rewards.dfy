/** Reward credits and claims: how a claim is matched against the credits it pays out. */
module Rewards {
  import opened Bytes

  const U256_LIMIT: nat := 0x1_0000000000000000_0000000000000000_0000000000000000_0000000000000000

  type u256 = x: int | 0 <= x < 0x1_0000000000000000_0000000000000000_0000000000000000_0000000000000000

  /** The 256-bit amount parser, taken from a library. */
  type Parser = string -> Option<u256>

  datatype RewardView = RewardView(account: string, token: Option<string>, amount: string, claimed: bool)

  /** ASCII lower case, so that two spellings of an address compare equal. */
  function NormalizeAddress(value: string): (r: string)
    ensures |r| == |value|
  {
    seq(|value|, i requires 0 <= i < |value| =>
      if 'A' <= value[i] <= 'Z' then value[i] - 'A' + 'a' else value[i])
  }

  /** An unclaimed credit to this account in this token (both already normalized). */
  predicate Matches(r: RewardView, account: string, token: string)
  {
    && !r.claimed
    && NormalizeAddress(r.account) == account
    && r.token.Some? && NormalizeAddress(r.token.value) == token
  }

  /** The credits picked by a mask, in order. */
  function Selected(rewards: seq<RewardView>, mask: seq<bool>): seq<RewardView>
    requires |mask| == |rewards|
  {
    if rewards == [] then []
    else
      var n := |rewards| - 1;
      Selected(rewards[..n], mask[..n]) + if mask[n] then [rewards[n]] else []
  }

  function Amount(parse: Parser, r: RewardView): nat
  {
    match parse(r.amount) case Some(n) => n case None => 0
  }

  function MatchSum(parse: Parser, rewards: seq<RewardView>, account: string, token: string): nat
  {
    if rewards == [] then 0
    else
      var last := rewards[|rewards| - 1];
      MatchSum(parse, rewards[..|rewards| - 1], account, token)
      + if Matches(last, account, token) then Amount(parse, last) else 0
  }

  predicate MatchesParse(parse: Parser, rewards: seq<RewardView>, account: string, token: string)
  {
    forall i :: 0 <= i < |rewards| && Matches(rewards[i], account, token) ==> parse(rewards[i].amount).Some?
  }

  /** A claim is accepted when every credit it matches has a legible amount and they add up to it exactly. */
  predicate Accepts(parse: Parser, rewards: seq<RewardView>, account: string, token: string, claimed: string)
  {
    && parse(claimed).Some?
    && MatchesParse(parse, rewards, NormalizeAddress(account), NormalizeAddress(token))
    && MatchSum(parse, rewards, NormalizeAddress(account), NormalizeAddress(token)) == parse(claimed).value
  }

  function Flip(r: RewardView, account: string, token: string): RewardView
  {
    if Matches(r, account, token) then r.(claimed := true) else r
  }

  /** The credits after a claim: all its matches are marked, or nothing is. */
  function Claimed(
    parse: Parser, rewards: seq<RewardView>, account: string, token: string, claimed: string)
    : (after: seq<RewardView>)
    ensures |after| == |rewards|
  {
    if Accepts(parse, rewards, account, token, claimed) then
      seq(|rewards|, i requires 0 <= i < |rewards| =>
        Flip(rewards[i], NormalizeAddress(account), NormalizeAddress(token)))
    else rewards
  }

  /** The credits after a claim that may touch only the masked ones. */
  function ClaimedUnder(
    parse: Parser, rewards: seq<RewardView>, mask: seq<bool>, account: string, token: string, claimed: string)
    : (after: seq<RewardView>)
    requires |mask| == |rewards|
    ensures |after| == |rewards|
  {
    if Accepts(parse, Selected(rewards, mask), account, token, claimed) then
      seq(|rewards|, i requires 0 <= i < |rewards| =>
        if mask[i] then Flip(rewards[i], NormalizeAddress(account), NormalizeAddress(token)) else rewards[i])
    else rewards
  }

  // ---------- prefixes of the scan ----------

  lemma {:induction false} MatchSumPrefix(
    parse: Parser, rewards: seq<RewardView>, account: string, token: string, n: nat)
    requires n <= |rewards|
    ensures MatchSum(parse, rewards[..n], account, token) <= MatchSum(parse, rewards, account, token)
    decreases |rewards|
  {
    if n < |rewards| {
      assert rewards[..|rewards| - 1][..n] == rewards[..n];
      MatchSumPrefix(parse, rewards[..|rewards| - 1], account, token, n);
    } else {
      assert rewards[..n] == rewards;
    }
  }

  lemma SelectedNext(rewards: seq<RewardView>, mask: seq<bool>, n: nat)
    requires |mask| == |rewards| && n < |rewards|
    ensures Selected(rewards[..n + 1], mask[..n + 1])
            == Selected(rewards[..n], mask[..n]) + if mask[n] then [rewards[n]] else []
  {
    assert rewards[..n + 1][..n] == rewards[..n] && mask[..n + 1][..n] == mask[..n];
  }

  lemma {:induction false} SelectedPrefix(rewards: seq<RewardView>, mask: seq<bool>, n: nat)
    requires |mask| == |rewards| && n <= |rewards|
    ensures Selected(rewards[..n], mask[..n]) <= Selected(rewards, mask)
    decreases |rewards| - n
  {
    if n < |rewards| {
      SelectedNext(rewards, mask, n);
      SelectedPrefix(rewards, mask, n + 1);
    } else {
      assert rewards[..n] == rewards && mask[..n] == mask;
    }
  }

  lemma MatchSumNext(parse: Parser, rewards: seq<RewardView>, last: RewardView, account: string, token: string)
    ensures MatchSum(parse, rewards + [last], account, token)
            == MatchSum(parse, rewards, account, token)
               + if Matches(last, account, token) then Amount(parse, last) else 0
  {
    assert (rewards + [last])[..|rewards|] == rewards;
  }

  /** A prefix that cannot be paid out rules out the whole. */
  lemma PrefixRefuses(
    parse: Parser, rewards: seq<RewardView>, mask: seq<bool>, n: nat, account: string, token: string,
    claimed: string)
    requires |mask| == |rewards| && n <= |rewards|
    requires var seen := Selected(rewards[..n], mask[..n]);
             || !MatchesParse(parse, seen, NormalizeAddress(account), NormalizeAddress(token))
             || MatchSum(parse, seen, NormalizeAddress(account), NormalizeAddress(token)) >= U256_LIMIT
    ensures ClaimedUnder(parse, rewards, mask, account, token, claimed) == rewards
  {
    var seen, all := Selected(rewards[..n], mask[..n]), Selected(rewards, mask);
    SelectedPrefix(rewards, mask, n);
    assert seen == all[..|seen|];
    MatchSumPrefix(parse, all, NormalizeAddress(account), NormalizeAddress(token), |seen|);
    assert MatchesParse(parse, all, NormalizeAddress(account), NormalizeAddress(token)) ==>
        MatchesParse(parse, seen, NormalizeAddress(account), NormalizeAddress(token));
  }

  /** Marks the credits a claim pays out. `mask` is the subset of the list the caller hands over. */
  method MarkClaimedRewards(parse: Parser, rewards: seq<RewardView>, mask: seq<bool>,
                            account: string, token: string, claimed: string)
    returns (after: seq<RewardView>)
    requires |mask| == |rewards|
    ensures after == ClaimedUnder(parse, rewards, mask, account, token, claimed)
  {
    hide MatchSum;
    hide Selected;
    hide NormalizeAddress;
    var claimedAmount := parse(claimed);
    if claimedAmount.None? {
      return rewards;
    }
    var who, coin := NormalizeAddress(account), NormalizeAddress(token);
    var matching: seq<nat> := [];
    var credited: nat := 0;
    NothingSelected(parse, rewards, mask, who, coin);
    for i := 0 to |rewards|
      invariant forall k :: k in matching ==> k < i
      invariant forall k :: 0 <= k < i ==> (k in matching <==> mask[k] && Matches(rewards[k], who, coin))
      invariant credited < U256_LIMIT
      invariant credited == MatchSum(parse, Selected(rewards[..i], mask[..i]), who, coin)
      invariant MatchesParse(parse, Selected(rewards[..i], mask[..i]), who, coin)
    {
      var reward := rewards[i];
      SelectedNext(rewards, mask, i);
      MatchSumNext(parse, Selected(rewards[..i], mask[..i]), reward, who, coin);
      if !mask[i] {
        assert Selected(rewards[..i], mask[..i]) + [] == Selected(rewards[..i], mask[..i]);
        continue;
      }
      if !Matches(reward, who, coin) {
        continue;
      }
      var seen := Selected(rewards[..i + 1], mask[..i + 1]);
      assert seen[|seen| - 1] == reward;
      var amount := parse(reward.amount);
      if amount.None? {
        PrefixRefuses(parse, rewards, mask, i + 1, account, token, claimed);
        return rewards;
      }
      if credited + amount.value >= U256_LIMIT {
        PrefixRefuses(parse, rewards, mask, i + 1, account, token, claimed);
        return rewards;
      }
      credited := credited + amount.value;
      matching := matching + [i];
    }
    assert rewards[..|rewards|] == rewards && mask[..|rewards|] == mask;
    if credited != claimedAmount.value {
      return rewards;
    }
    after := rewards;
    for j := 0 to |matching|
      invariant |after| == |rewards|
      invariant forall k :: 0 <= k < |rewards| ==>
                  after[k] == if k in matching[..j] then rewards[k].(claimed := true) else rewards[k]
    {
      assert matching[j] in matching;
      after := after[matching[j] := after[matching[j]].(claimed := true)];
    }
    assert matching[..|matching|] == matching;
  }

  lemma NothingSelected(parse: Parser, rewards: seq<RewardView>, mask: seq<bool>, account: string, token: string)
    requires |mask| == |rewards|
    ensures Selected(rewards[..0], mask[..0]) == []
    ensures MatchSum(parse, Selected(rewards[..0], mask[..0]), account, token) == 0
  {
  }

  // ---------- a claim seen through a selection ----------

  lemma SelectedLast(rewards: seq<RewardView>, mask: seq<bool>)
    requires |mask| == |rewards| && rewards != []
    ensures var n := |rewards| - 1;
            Selected(rewards, mask) == Selected(rewards[..n], mask[..n]) + if mask[n] then [rewards[n]] else []
  {
  }

  function FlipAll(rewards: seq<RewardView>, account: string, token: string): (r: seq<RewardView>)
    ensures |r| == |rewards|
  {
    seq(|rewards|, i requires 0 <= i < |rewards| => Flip(rewards[i], account, token))
  }

  function FlipUnder(rewards: seq<RewardView>, mask: seq<bool>, account: string, token: string): (r: seq<RewardView>)
    requires |mask| == |rewards|
    ensures |r| == |rewards|
  {
    seq(|rewards|, i requires 0 <= i < |rewards| => if mask[i] then Flip(rewards[i], account, token) else rewards[i])
  }

  lemma {:induction false} SelectedFlipUnder(rewards: seq<RewardView>, mask: seq<bool>, account: string, token: string)
    requires |mask| == |rewards|
    ensures Selected(FlipUnder(rewards, mask, account, token), mask) == FlipAll(Selected(rewards, mask), account, token)
    decreases |rewards|
  {
    hide Flip;
    if rewards != [] {
      var n := |rewards| - 1;
      var after := FlipUnder(rewards, mask, account, token);
      assert after[..n] == FlipUnder(rewards[..n], mask[..n], account, token);
      SelectedFlipUnder(rewards[..n], mask[..n], account, token);
      var front := Selected(rewards[..n], mask[..n]);
      if mask[n] {
        assert FlipAll(front + [rewards[n]], account, token) ==
                 FlipAll(front, account, token) + [Flip(rewards[n], account, token)];
      } else {
        assert front + [] == front;
        assert FlipAll(front, account, token) + [] == FlipAll(front, account, token);
      }
    }
  }

  /** Selecting after a claim on the selection is claiming on the selected list. */
  lemma ClaimThenSelect(
    parse: Parser, rewards: seq<RewardView>, mask: seq<bool>, account: string, token: string, claimed: string)
    requires |mask| == |rewards|
    ensures Selected(ClaimedUnder(parse, rewards, mask, account, token, claimed), mask)
            == Claimed(parse, Selected(rewards, mask), account, token, claimed)
  {
    hide Accepts;
    hide Flip;
    var who, coin := NormalizeAddress(account), NormalizeAddress(token);
    SelectedFlipUnder(rewards, mask, who, coin);
    if Accepts(parse, Selected(rewards, mask), account, token, claimed) {
      assert ClaimedUnder(parse, rewards, mask, account, token, claimed) == FlipUnder(rewards, mask, who, coin);
      assert Claimed(parse, Selected(rewards, mask), account, token, claimed) ==
               FlipAll(Selected(rewards, mask), who, coin);
    }
  }

  lemma {:induction false} SelectionUnchanged(before: seq<RewardView>, after: seq<RewardView>, mask: seq<bool>)
    requires |before| == |after| == |mask|
    requires forall i :: 0 <= i < |mask| && mask[i] ==> after[i] == before[i]
    ensures Selected(after, mask) == Selected(before, mask)
    decreases |mask|
  {
    if mask != [] {
      var n := |mask| - 1;
      SelectionUnchanged(before[..n], after[..n], mask[..n]);
    }
  }

  /** A mask that keeps every match changes neither what a claim adds up nor whether it is legible. */
  lemma {:induction false} SelectionKeepsMatches(
    parse: Parser, rewards: seq<RewardView>, mask: seq<bool>, account: string, token: string)
    requires |mask| == |rewards|
    requires forall i :: 0 <= i < |rewards| && Matches(rewards[i], account, token) ==> mask[i]
    ensures MatchSum(parse, Selected(rewards, mask), account, token) == MatchSum(parse, rewards, account, token)
    ensures MatchesParse(parse, Selected(rewards, mask), account, token) <==>
            MatchesParse(parse, rewards, account, token)
    decreases |rewards|
  {
    hide Matches;
    hide MatchesParse;
    hide MatchSum;
    hide Amount;
    if rewards == [] {
      assert Selected(rewards, mask) == rewards;
    } else {
      var n := |rewards| - 1;
      var front := Selected(rewards[..n], mask[..n]);
      SelectedLast(rewards, mask);
      MatchSumNext(parse, rewards[..n], rewards[n], account, token);
      SelectionKeepsMatches(parse, rewards[..n], mask[..n], account, token);
      MatchSumNext(parse, front, rewards[n], account, token);
      MatchesParseNext(parse, front, rewards[n], account, token);
      MatchesParseNext(parse, rewards[..n], rewards[n], account, token);
      assert rewards == rewards[..n] + [rewards[n]];
      assert front + [] == front;
    }
  }

  lemma MatchesParseNext(parse: Parser, rewards: seq<RewardView>, last: RewardView, account: string, token: string)
    ensures MatchesParse(parse, rewards + [last], account, token)
            <==> MatchesParse(parse, rewards, account, token) &&
                 (Matches(last, account, token) ==> parse(last.amount).Some?)
  {
    hide Matches;
    var all := rewards + [last];
    if MatchesParse(parse, all, account, token) {
      forall i | 0 <= i < |rewards| && Matches(rewards[i], account, token) ensures parse(rewards[i].amount).Some? {
        assert all[i] == rewards[i];
      }
      assert all[|rewards|] == last;
    }
  }

  /** Selecting commutes with a claim when the selection holds every credit the claim matches. */
  lemma SelectThroughClaim(
    parse: Parser, rewards: seq<RewardView>, mask: seq<bool>, account: string, token: string, claimed: string)
    requires |mask| == |rewards|
    requires forall i :: 0 <= i < |rewards| ==>
                           (Matches(rewards[i], NormalizeAddress(account), NormalizeAddress(token)) ==> mask[i])
    ensures Selected(Claimed(parse, rewards, account, token, claimed), mask)
            == Claimed(parse, Selected(rewards, mask), account, token, claimed)
  {
    hide MatchSum;
    hide MatchesParse;
    hide Matches;
    hide NormalizeAddress;
    var who, coin := NormalizeAddress(account), NormalizeAddress(token);
    SelectionKeepsMatches(parse, rewards, mask, who, coin);
    SelectedFlipUnder(rewards, mask, who, coin);
    if Accepts(parse, rewards, account, token, claimed) {
      assert Claimed(parse, rewards, account, token, claimed) == FlipUnder(rewards, mask, who, coin);
      assert Claimed(parse, Selected(rewards, mask), account, token, claimed) ==
               FlipAll(Selected(rewards, mask), who, coin);
    }
  }

  // ---------- conservation ----------

  function Credited(parse: Parser, rewards: seq<RewardView>): nat
  {
    if rewards == [] then 0
    else Credited(parse, rewards[..|rewards| - 1]) + Amount(parse, rewards[|rewards| - 1])
  }

  function Flagged(parse: Parser, rewards: seq<RewardView>): nat
  {
    if rewards == [] then 0
    else
      var last := rewards[|rewards| - 1];
      Flagged(parse, rewards[..|rewards| - 1]) + if last.claimed then Amount(parse, last) else 0
  }

  lemma {:induction false} FlippedSums(
    parse: Parser, rewards: seq<RewardView>, mask: seq<bool>, account: string, token: string)
    requires |mask| == |rewards|
    ensures var after := FlipUnder(rewards, mask, account, token);
            && Flagged(parse, after) ==
                 Flagged(parse, rewards) + MatchSum(parse, Selected(rewards, mask), account, token)
            && Credited(parse, after) == Credited(parse, rewards)
    decreases |rewards|
  {
    hide NormalizeAddress;
    if rewards != [] {
      var n := |rewards| - 1;
      var after := FlipUnder(rewards, mask, account, token);
      assert after[..n] == FlipUnder(rewards[..n], mask[..n], account, token);
      FlippedSums(parse, rewards[..n], mask[..n], account, token);
      var front := Selected(rewards[..n], mask[..n]);
      MatchSumNext(parse, front, rewards[n], account, token);
      assert front + [] == front;
    }
  }

  lemma {:induction false} FlaggedAtMostCredited(parse: Parser, rewards: seq<RewardView>)
    ensures Flagged(parse, rewards) <= Credited(parse, rewards)
  {
    if rewards != [] {
      FlaggedAtMostCredited(parse, rewards[..|rewards| - 1]);
    }
  }

  /**
   * A claim moves exactly its amount from unclaimed to claimed, or nothing: no credit is created,
   * and no mark is ever taken back.
   */
  lemma ClaimConserves(
    parse: Parser, rewards: seq<RewardView>, mask: seq<bool>, account: string, token: string, claimed: string)
    requires |mask| == |rewards|
    ensures var after := ClaimedUnder(parse, rewards, mask, account, token, claimed);
            var accepted := Accepts(parse, Selected(rewards, mask), account, token, claimed);
            && Credited(parse, after) == Credited(parse, rewards)
            && Flagged(parse, after) == Flagged(parse, rewards) + (if accepted then parse(claimed).value else 0)
            && (forall i :: 0 <= i < |rewards| && rewards[i].claimed ==> after[i].claimed)
            && (forall i :: 0 <= i < |rewards| ==> after[i] == rewards[i] || after[i] == rewards[i].(claimed := true))
  {
    hide MatchSum;
    hide MatchesParse;
    hide NormalizeAddress;
    hide Selected;
    hide Flagged;
    hide Credited;
    var who, coin := NormalizeAddress(account), NormalizeAddress(token);
    FlippedSums(parse, rewards, mask, who, coin);
    if Accepts(parse, Selected(rewards, mask), account, token, claimed) {
      assert ClaimedUnder(parse, rewards, mask, account, token, claimed) == FlipUnder(rewards, mask, who, coin);
    }
  }

  function AllOf(n: nat): (mask: seq<bool>)
    ensures |mask| == n
  {
    seq(n, _ => true)
  }

  lemma {:induction false} AllSelected(rewards: seq<RewardView>)
    ensures Selected(rewards, AllOf(|rewards|)) == rewards
  {
    if rewards != [] {
      var n := |rewards| - 1;
      assert AllOf(|rewards|)[..n] == AllOf(n);
      AllSelected(rewards[..n]);
    }
  }

  /** Handing over the whole list is a claim on the whole list. */
  lemma ClaimOnAll(parse: Parser, rewards: seq<RewardView>, account: string, token: string, claimed: string)
    ensures ClaimedUnder(parse, rewards, AllOf(|rewards|), account, token, claimed)
            == Claimed(parse, rewards, account, token, claimed)
  {
    hide Accepts;
    hide Selected;
    AllSelected(rewards);
  }

  // ---------- what a claim pays out, without the scan ----------

  predicate CaseOnly(x: char, y: char)
  {
    ('A' <= x <= 'Z' && y as int == x as int + 32) || ('A' <= y <= 'Z' && x as int == y as int + 32)
  }

  /** Two spellings name one address exactly if they differ in the case of ASCII letters only. */
  lemma SpellingsOfOneAddress(a: string, b: string)
    ensures NormalizeAddress(a) == NormalizeAddress(b) <==>
            |a| == |b| && forall i :: 0 <= i < |a| ==> a[i] == b[i] || CaseOnly(a[i], b[i])
    ensures forall i :: 0 <= i < |a| ==> !('A' <= NormalizeAddress(a)[i] <= 'Z')
    ensures NormalizeAddress(NormalizeAddress(a)) == NormalizeAddress(a)
  {
    if NormalizeAddress(a) == NormalizeAddress(b) {
      forall i | 0 <= i < |a| ensures a[i] == b[i] || CaseOnly(a[i], b[i]) {
        assert NormalizeAddress(a)[i] == NormalizeAddress(b)[i];
      }
    }
  }

  /** A credit not yet claimed, to this account and in this token, however they are spelled. */
  predicate Owed(r: RewardView, account: string, token: string)
  {
    && !r.claimed && r.token.Some?
    && NormalizeAddress(r.account) == NormalizeAddress(account)
    && NormalizeAddress(r.token.value) == NormalizeAddress(token)
  }

  function OwedOf(rewards: seq<RewardView>, account: string, token: string): seq<RewardView>
  {
    if rewards == [] then []
    else
      var last := rewards[|rewards| - 1];
      OwedOf(rewards[..|rewards| - 1], account, token) + if Owed(last, account, token) then [last] else []
  }

  lemma OwedSnoc(front: seq<RewardView>, last: RewardView, account: string, token: string)
    ensures OwedOf(front + [last], account, token) ==
            OwedOf(front, account, token) + if Owed(last, account, token) then [last] else []
    ensures OwedOf([], account, token) == []
  {
    hide Owed;
    assert (front + [last])[..|front|] == front;
  }

  lemma {:induction false} OwedMembers(rewards: seq<RewardView>, account: string, token: string)
    ensures forall r :: r in OwedOf(rewards, account, token) <==> r in rewards && Owed(r, account, token)
  {
    hide Owed;
    hide OwedOf;
    if rewards == [] {
      OwedSnoc([], RewardView("", None, "", false), account, token);
    } else {
      var front, last := rewards[..|rewards| - 1], rewards[|rewards| - 1];
      assert rewards == front + [last];
      OwedMembers(front, account, token);
      OwedSnoc(front, last, account, token);
    }
  }

  lemma CreditedNext(parse: Parser, front: seq<RewardView>, last: RewardView)
    ensures Credited(parse, front + [last]) == Credited(parse, front) + Amount(parse, last)
    ensures Credited(parse, []) == 0
  {
    assert (front + [last])[..|front|] == front;
  }

  lemma {:induction false} OwedSums(parse: Parser, rewards: seq<RewardView>, account: string, token: string)
    ensures Credited(parse, OwedOf(rewards, account, token)) ==
            MatchSum(parse, rewards, NormalizeAddress(account), NormalizeAddress(token))
  {
    hide NormalizeAddress;
    hide OwedOf;
    hide Credited;
    hide Amount;
    var who, coin := NormalizeAddress(account), NormalizeAddress(token);
    if rewards == [] {
      OwedSnoc([], RewardView("", None, "", false), account, token);
      CreditedNext(parse, [], RewardView("", None, "", false));
    } else {
      hide MatchSum;
      var front, last := rewards[..|rewards| - 1], rewards[|rewards| - 1];
      assert rewards == front + [last];
      OwedSums(parse, front, account, token);
      OwedSnoc(front, last, account, token);
      MatchSumNext(parse, front, last, who, coin);
      CreditedNext(parse, OwedOf(front, account, token), last);
      assert OwedOf(front, account, token) + [] == OwedOf(front, account, token);
    }
  }

  /** A claim is paid if the credits owed have legible amounts that add up to it. */
  ghost predicate Pays(parse: Parser, rewards: seq<RewardView>, account: string, token: string, amount: string)
  {
    var owed := OwedOf(rewards, account, token);
    && parse(amount).Some?
    && (forall r :: r in owed ==> parse(r.amount).Some?)
    && Credited(parse, owed) == parse(amount).value
  }

  lemma PaysIsAccepted(parse: Parser, rewards: seq<RewardView>, account: string, token: string, amount: string)
    ensures Pays(parse, rewards, account, token, amount) <==> Accepts(parse, rewards, account, token, amount)
  {
    hide NormalizeAddress;
    hide Credited;
    hide MatchSum;
    hide OwedOf;
    OwedSums(parse, rewards, account, token);
    OwedMembers(rewards, account, token);
    var who, coin := NormalizeAddress(account), NormalizeAddress(token);
    var owed := OwedOf(rewards, account, token);
    assert MatchesParse(parse, rewards, who, coin) <==> forall r :: r in owed ==> parse(r.amount).Some? by {
      forall k | 0 <= k < |rewards| && Matches(rewards[k], who, coin) ensures rewards[k] in owed {
        assert rewards[k] in rewards;
      }
    }
  }

  /** A claim that is paid marks every credit owed and no other; one that is not changes nothing. */
  lemma ClaimIsExact(
    parse: Parser, rewards: seq<RewardView>, account: string, token: string, amount: string, i: nat)
    requires i < |rewards|
    ensures Claimed(parse, rewards, account, token, amount)[i] ==
            if Pays(parse, rewards, account, token, amount) && Owed(rewards[i], account, token) then
              rewards[i].(claimed := true)
            else rewards[i]
  {
    hide NormalizeAddress;
    hide MatchSum;
    hide MatchesParse;
    PaysIsAccepted(parse, rewards, account, token, amount);
  }

  /** A claim on a part of a list is exact on that part and touches nothing else. */
  lemma ClaimOnPartIsExact(
    parse: Parser, rewards: seq<RewardView>, mask: seq<bool>, account: string, token: string, amount: string, i: nat)
    requires |mask| == |rewards| && i < |rewards|
    ensures ClaimedUnder(parse, rewards, mask, account, token, amount)[i] ==
            if mask[i] && Pays(parse, Selected(rewards, mask), account, token, amount) &&
               Owed(rewards[i], account, token)
            then rewards[i].(claimed := true)
            else rewards[i]
  {
    hide NormalizeAddress;
    hide MatchSum;
    hide MatchesParse;
    hide Selected;
    PaysIsAccepted(parse, Selected(rewards, mask), account, token, amount);
  }
}
