/** Feeding the projection from the event store, page by page, behind one cursor per aggregate. */
module Refresh {
  import opened Bytes
  import opened Projection
  import Rewards

  const PAGE_SIZE: nat := 2000
  const U64_MAX: nat := 0xFFFF_FFFF_FFFF_FFFF

  datatype Sequenced = Sequenced(seqNo: nat, event: Event)

  /** The stored events of every aggregate; sequence numbers count from one. */
  type Logs = map<nat, seq<Event>>

  function LogOf(logs: Logs, aggregate: nat): seq<Event>
  {
    if aggregate in logs then logs[aggregate] else []
  }

  ghost predicate Extends(before: Logs, after: Logs)
  {
    forall a: nat :: LogOf(before, a) <= LogOf(after, a)
  }

  function Numbered(log: seq<Event>, upTo: nat): (r: seq<Sequenced>)
    requires upTo <= |log|
    ensures |r| == upTo
  {
    seq(upTo, i requires 0 <= i < upTo => Sequenced(i + 1, log[i]))
  }

  function StartOf(since: nat): nat { if since == 0 then 0 else since - 1 }

  /** What the store may answer: some events from the cursor on, none only if there are none. */
  ghost predicate IsPage(log: seq<Event>, since: nat, page: seq<Sequenced>)
  {
    && StartOf(since) + |page| <= |log|
    && (page == [] ==> StartOf(since) == |log|)
    && |page| <= PAGE_SIZE
    && forall i :: 0 <= i < |page| ==> page[i] == Sequenced(StartOf(since) + i + 1, log[StartOf(since) + i])
  }

  /**
   * One reply of the event store: the logs have grown to `grown`; a page is cut at `count` events, or the
   * query times out.
   */
  datatype Answer =
    | Page(grown: Logs, count: nat)
    | Timeout(grown: Logs)

  ghost predicate Legal(answers: seq<Answer>, logs: Logs)
  {
    && (forall a: nat :: |LogOf(logs, a)| < U64_MAX)
    && (answers == [] || (Extends(logs, answers[0].grown) && Legal(answers[1..], answers[0].grown)))
  }

  /** The store cuts no page short of the limit while events remain. */
  predicate FillsPages(answers: seq<Answer>)
  {
    forall i :: 0 <= i < |answers| && answers[i].Page? ==> answers[i].count >= PAGE_SIZE
  }

  /** How many events a page cut at `count` holds: at least one if any remain, at most the page size. */
  function PageLength(count: nat, remaining: int): (n: int)
    ensures n <= remaining && n <= PAGE_SIZE && (remaining >= 0 ==> n >= 0)
  {
    var asked := if count == 0 then 1 else if count > PAGE_SIZE then PAGE_SIZE else count;
    if asked > remaining then remaining else asked
  }

  /**
   * A refresh of one aggregate that consumed `used` full pages and then answer number `used`, which left
   * the start of the next read at `end` in a log of `length` events.
   */
  predicate EndsAt(answers: seq<Answer>, used: nat, start: nat, length: nat, end: nat)
  {
    && used < |answers| && answers[used].Page?
    && start <= length
    && end == start + PageLength(answers[used].count, length - start) < start + PAGE_SIZE
  }

  /** What is left behind answer number `used` fits the page, and the store did not cut that page short. */
  predicate LastPageHoldsRest(answers: seq<Answer>, used: nat, start: nat, length: nat)
    requires used < |answers| && answers[used].Page?
  {
    length - start < PAGE_SIZE && (length - start <= answers[used].count || length - start <= 1)
  }

  lemma CaughtUpExactly(answers: seq<Answer>, used: nat, start: nat, length: nat, end: nat)
    requires EndsAt(answers, used, start, length, end)
    ensures end == length <==> LastPageHoldsRest(answers, used, start, length)
  {
  }

  class EventStoreReader {
    var answers: seq<Answer>
    ghost var logs: Logs

    constructor (answers: seq<Answer>, ghost logs: Logs)
      requires Legal(answers, logs)
      ensures Valid() && this.answers == answers && this.logs == logs
    {
      this.answers := answers;
      this.logs := logs;
    }

    ghost predicate Valid()
      reads this
    {
      Legal(answers, logs)
    }

    method FetchPage(aggregate: nat, since: nat) returns (r: Result<seq<Sequenced>, ()>)
      requires Valid()
      modifies this
      ensures Valid() && Extends(old(logs), logs)
      ensures r.Ok? ==> IsPage(LogOf(logs, aggregate), since, r.value) && |answers| < |old(answers)|
      ensures FillsPages(old(answers)) ==> FillsPages(answers)
      ensures FillsPages(old(answers)) && r.Ok? && |r.value| < PAGE_SIZE ==>
                StartOf(since) + |r.value| == |LogOf(logs, aggregate)|
      ensures r.Ok? ==>
                && old(answers) != [] && old(answers)[0].Page?
                && answers == old(answers)[1..] && logs == old(answers)[0].grown
                && |r.value| == PageLength(old(answers)[0].count, |LogOf(logs, aggregate)| - StartOf(since))
      ensures old(answers) != [] && old(answers)[0].Page? && since <= |LogOf(old(answers)[0].grown, aggregate)| + 1 ==>
                r.Ok?
      ensures r.Err? ==> if old(answers) == [] then answers == [] else answers == old(answers)[1..]
    {
      if answers == [] {
        return Err(());
      }
      var answer := answers[0];
      answers := answers[1..];
      logs := answer.grown;
      var log := LogOf(answer.grown, aggregate);
      if answer.Timeout? || since > |log| + 1 {
        return Err(());
      }
      var available := |log| - StartOf(since);
      var n := PageLength(answer.count, available);
      return Ok(seq(n, i requires 0 <= i < n => Sequenced(StartOf(since) + i + 1, log[StartOf(since) + i])));
    }
  }

  /** The first `used` answers were pages cut no shorter than the page size. */
  predicate FullPages(answers: seq<Answer>, used: nat)
  {
    used <= |answers| && forall i :: 0 <= i < used ==> answers[i].Page? && answers[i].count >= PAGE_SIZE
  }

  /**
   * Between two points of the answers one aggregate was refreshed: full pages, then one that was not full
   * and left the cursor no further than `cursor`.
   */
  ghost predicate Pulled(answers: seq<Answer>, from: nat, to: nat, aggregate: nat, start: nat, cursor: nat)
  {
    && from < to <= |answers|
    && FullPages(answers[from..], to - 1 - from)
    && answers[to - 1].Page?
    && var length := |LogOf(answers[to - 1].grown, aggregate)|;
       var last := PageLength(answers[to - 1].count, length - start);
       start <= length && last < PAGE_SIZE && start + last <= cursor
  }

  lemma PulledHere(answers: seq<Answer>, from: nat, used: nat, aggregate: nat, start: nat, cursor: nat)
    requires from + used < |answers| && FullPages(answers[from..], used)
    requires EndsAt(answers[from..], used, start, |LogOf(answers[from + used].grown, aggregate)|, cursor)
    ensures Pulled(answers, from, from + used + 1, aggregate, start, cursor)
  {
  }

  /** What was pulled before stays so when cursors move on. */
  lemma LaterCursors(
    answers: seq<Answer>, taken: seq<nat>, starts: seq<nat>, ids: seq<nat>, k: nat, before: map<nat, nat>,
    after: map<nat, nat>)
    requires |taken| == k + 1 && |starts| == k <= |ids|
    requires forall a: nat :: CursorOf(before, a) <= CursorOf(after, a)
    requires forall i :: 0 <= i < k ==>
               Pulled(answers, taken[i], taken[i + 1], ids[i], starts[i], StartOf(CursorOf(before, ids[i])))
    ensures forall i :: 0 <= i < k ==>
              Pulled(answers, taken[i], taken[i + 1], ids[i], starts[i], StartOf(CursorOf(after, ids[i])))
  {
    hide PageLength;
    hide FullPages;
    hide LogOf;
    hide CursorOf;
    forall i | 0 <= i < k
      ensures Pulled(answers, taken[i], taken[i + 1], ids[i], starts[i], StartOf(CursorOf(after, ids[i])))
    {
      assert Pulled(answers, taken[i], taken[i + 1], ids[i], starts[i], StartOf(CursorOf(before, ids[i])));
      assert CursorOf(before, ids[i]) <= CursorOf(after, ids[i]);
    }
  }

  lemma ExtendsLength(before: Logs, after: Logs, aggregate: nat)
    requires Extends(before, after)
    ensures |LogOf(before, aggregate)| <= |LogOf(after, aggregate)|
  {
  }

  lemma PageInLog(log: seq<Event>, since: nat, page: seq<Sequenced>, count: nat)
    requires IsPage(log, since, page) && |page| == PageLength(count, |log| - StartOf(since))
    ensures StartOf(since) + |page| <= |log| && |page| <= PAGE_SIZE
    ensures |page| == PAGE_SIZE ==> count >= PAGE_SIZE
  {
  }

  lemma LogsExtendThemselves(logs: Logs)
    ensures Extends(logs, logs)
  {
  }

  lemma ExtendsOnward(a: Logs, b: Logs, c: Logs)
    requires Extends(a, b) && Extends(b, c)
    ensures Extends(a, c)
  {
  }

  /** One event handed to the projection, and for which aggregate. */
  datatype Delivery = Delivery(aggregate: nat, what: Sequenced)

  function EventsOf(delivered: seq<Delivery>): (events: seq<Event>)
    ensures |events| == |delivered|
  {
    seq(|delivered|, i requires 0 <= i < |delivered| => delivered[i].what.event)
  }

  function DeliveredFor(delivered: seq<Delivery>, aggregate: nat): seq<Sequenced>
  {
    if delivered == [] then []
    else
      var last := delivered[|delivered| - 1];
      DeliveredFor(delivered[..|delivered| - 1], aggregate) + if last.aggregate == aggregate then [last.what] else []
  }

  function CursorOf(cursors: map<nat, nat>, aggregate: nat): nat
  {
    if aggregate in cursors then cursors[aggregate] else 0
  }

  /** Up to its cursor, an aggregate's events have been delivered once each, in order, and no others. */
  ghost predicate ExactlyOnce(log: seq<Event>, cursor: nat, delivered: seq<Sequenced>)
  {
    StartOf(cursor) <= |log| && delivered == Numbered(log, StartOf(cursor))
  }

  function MaxSeq(page: seq<Sequenced>, default: nat): nat
  {
    if page == [] then default
    else if |page| == 1 then page[0].seqNo
    else
      var front := MaxSeq(page[..|page| - 1], default);
      if page[|page| - 1].seqNo > front then page[|page| - 1].seqNo else front
  }

  lemma {:induction false} MaxSeqIsLast(log: seq<Event>, since: nat, page: seq<Sequenced>)
    requires IsPage(log, since, page) && page != []
    ensures MaxSeq(page, since) == StartOf(since) + |page|
    decreases |page|
  {
    if |page| > 1 {
      MaxSeqIsLast(log, since, page[..|page| - 1]);
    }
  }

  function Tagged(aggregate: nat, page: seq<Sequenced>): (r: seq<Delivery>)
    ensures |r| == |page|
  {
    seq(|page|, i requires 0 <= i < |page| => Delivery(aggregate, page[i]))
  }

  lemma {:induction false} DeliverPage(delivered: seq<Delivery>, aggregate: nat, page: seq<Sequenced>, a: nat)
    ensures DeliveredFor(delivered + Tagged(aggregate, page), a)
            == DeliveredFor(delivered, a) + if a == aggregate then page else []
    decreases |page|
  {
    var all := delivered + Tagged(aggregate, page);
    if page == [] {
      assert all == delivered;
    } else {
      var front := page[..|page| - 1];
      assert all[..|all| - 1] == delivered + Tagged(aggregate, front);
      DeliverPage(delivered, aggregate, front, a);
      assert front + [page[|page| - 1]] == page;
    }
  }

  /** A page after the cursor extends what was delivered exactly, and the next cursor sits after it. */
  lemma PageExtends(log: seq<Event>, since: nat, page: seq<Sequenced>, delivered: seq<Sequenced>)
    requires ExactlyOnce(log, since, delivered) && IsPage(log, since, page) && page != []
    ensures ExactlyOnce(log, MaxSeq(page, since) + 1, delivered + page)
  {
    MaxSeqIsLast(log, since, page);
    var n := StartOf(since) + |page|;
    assert Numbered(log, n)[..StartOf(since)] == Numbered(log, StartOf(since));
    forall i | 0 <= i < n ensures (delivered + page)[i] == Numbered(log, n)[i] {
    }
  }

  /** More events at the end of a log do not disturb what was delivered. */
  lemma GrowthKeeps(before: seq<Event>, after: seq<Event>, cursor: nat, delivered: seq<Sequenced>)
    requires ExactlyOnce(before, cursor, delivered) && before <= after
    ensures ExactlyOnce(after, cursor, delivered)
  {
  }

  class DashboardState {
    const aggregateIds: seq<nat>
    const store: EventStoreReader
    const projection: TelemetryProjection
    var cursors: map<nat, nat>
    ghost var delivered: seq<Delivery>

    ghost predicate Consistent()
      reads this, store, projection
    {
      && store.Valid()
      && projection.Current() == Run(projection.parse, projection.localAddress, EventsOf(delivered))
      && forall a: nat :: ExactlyOnce(LogOf(store.logs, a), CursorOf(cursors, a), DeliveredFor(delivered, a))
    }

    constructor (aggregateIds: seq<nat>, store: EventStoreReader, projection: TelemetryProjection)
      requires store.Valid()
      requires projection.Current() == Run(projection.parse, projection.localAddress, [])
      ensures Consistent()
      ensures this.aggregateIds == aggregateIds && this.store == store && this.projection == projection
      ensures cursors == map[] && delivered == []
    {
      this.aggregateIds := aggregateIds;
      this.store := store;
      this.projection := projection;
      cursors := map[];
      delivered := [];
    }

    /**
     * Pulls pages until each aggregate answers one that is not full. Whatever the store answers, and
     * whether the refresh succeeds or stops half way, every aggregate's events up to its cursor have
     * reached the projection exactly once and in order. On success `taken` splits the answers between the
     * aggregates; a failure is a timeout or the end of the answers, and nothing else.
     */
    method RefreshAll() returns (ok: bool, ghost taken: seq<nat>, ghost starts: seq<nat>)
      requires Consistent()
      modifies this, store, projection
      ensures Consistent()
      ensures Extends(old(store.logs), store.logs)
      ensures old(delivered) <= delivered
      ensures forall a: nat :: CursorOf(old(cursors), a) <= CursorOf(cursors, a)
      ensures ok ==>
                && |taken| == |aggregateIds| + 1 && |starts| == |aggregateIds| && taken[0] == 0
                && taken[|aggregateIds|] <= |old(store.answers)|
                && store.answers == old(store.answers)[taken[|aggregateIds|]..]
                && forall k :: 0 <= k < |aggregateIds| ==>
                     Pulled(old(store.answers), taken[k], taken[k + 1], aggregateIds[k], starts[k],
                            StartOf(CursorOf(cursors, aggregateIds[k])))
      ensures !ok ==>
                aggregateIds != [] &&
                (store.answers == [] ||
                 exists n :: 0 < n <= |old(store.answers)| && old(store.answers)[n - 1].Timeout? &&
                             store.answers == old(store.answers)[n..])
      ensures ok && FillsPages(old(store.answers)) ==>
                forall a :: a in aggregateIds ==> |LogOf(old(store.logs), a)| <= StartOf(CursorOf(cursors, a))
    {
      hide Run;
      hide Applied;
      hide Consistent;
      hide FillsPages;
      hide Extends;
      hide PageLength;
      hide Pulled;
      hide FullPages;
      hide LastPageHoldsRest;
      hide LogOf;
      LogsExtendThemselves(store.logs);
      ghost var answers := store.answers;
      taken, starts := [0], [];
      for k := 0 to |aggregateIds|
        invariant Consistent()
        invariant Extends(old(store.logs), store.logs)
        invariant old(delivered) <= delivered
        invariant forall a: nat :: CursorOf(old(cursors), a) <= CursorOf(cursors, a)
        invariant |taken| == k + 1 && |starts| == k && taken[0] == 0
        invariant taken[k] <= |answers| && store.answers == answers[taken[k]..]
        invariant forall i :: 0 <= i < k ==>
                    Pulled(answers, taken[i], taken[i + 1], aggregateIds[i], starts[i],
                           StartOf(CursorOf(cursors, aggregateIds[i])))
        invariant FillsPages(answers) ==> FillsPages(store.answers)
        invariant FillsPages(answers) ==>
                    forall i :: 0 <= i < k ==>
                      |LogOf(old(store.logs), aggregateIds[i])| <= StartOf(CursorOf(cursors, aggregateIds[i]))
      {
        ghost var rest, before, grown := store.answers, cursors, store.logs;
        var refreshed, used, start := RefreshAggregate(aggregateIds[k]);
        ExtendsOnward(old(store.logs), grown, store.logs);
        ghost var from := taken[k];
        if !refreshed {
          if used < |rest| {
            ghost var n := from + used + 1;
            assert answers[n - 1] == rest[used] && answers[n - 1].Timeout?;
            assert store.answers == answers[n..];
          }
          return false, taken, starts;
        }
        LaterCursors(answers, taken, starts, aggregateIds, k, before, cursors);
        PulledHere(answers, from, used, aggregateIds[k], start, StartOf(CursorOf(cursors, aggregateIds[k])));
        ExtendsLength(old(store.logs), store.logs, aggregateIds[k]);
        taken, starts := taken + [from + used + 1], starts + [start];
      }
      return true, taken, starts;
    }

    /**
     * One aggregate's pages: `used` full ones from the cursor on, and then one that is not full, which is
     * taken for the last. The refresh succeeds behind it whatever remains; it has caught up exactly when
     * that page held the rest, which is always so if the store fills its pages.
     */
    method RefreshAggregate(aggregate: nat) returns (ok: bool, ghost used: nat, ghost start: nat)
      requires Consistent()
      modifies this, store, projection
      ensures Consistent()
      ensures start == StartOf(CursorOf(old(cursors), aggregate)) + 2000 * used
      ensures used <= |old(store.answers)| && FullPages(old(store.answers), used)
      ensures ok ==>
                && EndsAt(old(store.answers), used, start, |LogOf(store.logs, aggregate)|,
                     StartOf(CursorOf(cursors, aggregate)))
                && (StartOf(CursorOf(cursors, aggregate)) == |LogOf(store.logs, aggregate)| <==>
                    LastPageHoldsRest(old(store.answers), used, start, |LogOf(store.logs, aggregate)|))
                && store.answers == old(store.answers)[used + 1..] && store.logs == old(store.answers)[used].grown
      ensures !ok ==>
                if used == |old(store.answers)| then store.answers == []
                else old(store.answers)[used].Timeout? && store.answers == old(store.answers)[used + 1..]
      ensures !ok ==> StartOf(CursorOf(cursors, aggregate)) == start
      ensures ok && FillsPages(old(store.answers)) ==>
                StartOf(CursorOf(cursors, aggregate)) == |LogOf(store.logs, aggregate)|
      ensures FillsPages(old(store.answers)) ==> FillsPages(store.answers)
      ensures Extends(old(store.logs), store.logs)
      ensures old(delivered) <= delivered
      ensures forall a: nat :: CursorOf(old(cursors), a) <= CursorOf(cursors, a)
    {
      hide Consistent;
      hide IsPage;
      hide Extends;
      hide FillsPages;
      hide LastPageHoldsRest;
      hide LogOf;
      hide PageLength;
      LogsExtendThemselves(store.logs);
      ghost var answers := store.answers;
      used, start := 0, StartOf(CursorOf(cursors, aggregate));
      while true
        invariant Consistent()
        invariant Extends(old(store.logs), store.logs)
        invariant old(delivered) <= delivered
        invariant forall a: nat :: CursorOf(old(cursors), a) <= CursorOf(cursors, a)
        invariant FillsPages(answers) ==> FillsPages(store.answers)
        invariant used <= |answers| && store.answers == answers[used..]
        invariant FullPages(answers, used)
        invariant start == StartOf(CursorOf(cursors, aggregate))
        invariant start == StartOf(CursorOf(old(cursors), aggregate)) + 2000 * used
        decreases |store.answers|
      {
        var since := CursorOf(cursors, aggregate);
        ghost var before := store.logs;
        var fetched := FetchAnswer(aggregate, since);
        ExtendsOnward(old(store.logs), before, store.logs);
        if fetched.Err? {
          return false, used, start;
        }
        var page := fetched.value;
        PageInLog(LogOf(store.logs, aggregate), since, page, answers[used].count);
        if page == [] {
          CaughtUpExactly(answers, used, start, |LogOf(store.logs, aggregate)|, start);
          break;
        }
        DeliverAll(aggregate, since, page);
        if |page| < PAGE_SIZE {
          CaughtUpExactly(answers, used, start, |LogOf(store.logs, aggregate)|, start + |page|);
          break;
        }
        used := used + 1;
        start := StartOf(CursorOf(cursors, aggregate));
      }
      return true, used, start;
    }

    /** A query leaves the projection and the cursors as they were. */
    method FetchAnswer(aggregate: nat, since: nat) returns (r: Result<seq<Sequenced>, ()>)
      requires Consistent()
      modifies store
      ensures Consistent() && Extends(old(store.logs), store.logs)
      ensures r.Ok? ==> IsPage(LogOf(store.logs, aggregate), since, r.value) && |store.answers| < |old(store.answers)|
      ensures FillsPages(old(store.answers)) ==> FillsPages(store.answers)
      ensures FillsPages(old(store.answers)) && r.Ok? && |r.value| < PAGE_SIZE ==>
                StartOf(since) + |r.value| == |LogOf(store.logs, aggregate)|
      ensures r.Ok? ==>
                && old(store.answers) != [] && old(store.answers)[0].Page?
                && store.answers == old(store.answers)[1..] && store.logs == old(store.answers)[0].grown
                && |r.value| == PageLength(old(store.answers)[0].count, |LogOf(store.logs, aggregate)| - StartOf(since))
      ensures since == CursorOf(cursors, aggregate) && r.Err? ==>
                if old(store.answers) == [] then store.answers == []
                else old(store.answers)[0].Timeout? && store.answers == old(store.answers)[1..]
    {
      hide Run;
      hide PageLength;
      ghost var before := store.logs;
      r := store.FetchPage(aggregate, since);
      forall a: nat
        ensures ExactlyOnce(LogOf(store.logs, a), CursorOf(cursors, a), DeliveredFor(delivered, a))
      {
        GrowthKeeps(LogOf(before, a), LogOf(store.logs, a), CursorOf(cursors, a), DeliveredFor(delivered, a));
      }
    }

    /** Applies one page and moves the cursor behind it. */
    method DeliverAll(aggregate: nat, since: nat, page: seq<Sequenced>)
      requires Consistent()
      requires since == CursorOf(cursors, aggregate) && page != []
      requires IsPage(LogOf(store.logs, aggregate), since, page)
      modifies this, projection
      ensures Consistent()
      ensures store.logs == old(store.logs) && store.answers == old(store.answers)
      ensures delivered == old(delivered) + Tagged(aggregate, page)
      ensures cursors == old(cursors)[aggregate := since + |page| + if since == 0 then 1 else 0]
    {
      hide Run;
      hide Applied;
      MaxSeqIsLast(LogOf(store.logs, aggregate), since, page);
      var latest := MaxSeq(page, since);
      var next := if latest == U64_MAX then U64_MAX else latest + 1;
      assert latest < U64_MAX;
      ghost var before := delivered;
      for i := 0 to |page|
        invariant store.Valid() && cursors == old(cursors)
        invariant delivered == before + Tagged(aggregate, page[..i])
        invariant projection.Current() == Run(projection.parse, projection.localAddress, EventsOf(delivered))
      {
        projection.Apply(page[i].event);
        RunSnoc(projection.parse, projection.localAddress, delivered, Delivery(aggregate, page[i]));
        delivered := delivered + [Delivery(aggregate, page[i])];
        assert Tagged(aggregate, page[..i + 1]) == Tagged(aggregate, page[..i]) + [Delivery(aggregate, page[i])];
      }
      assert page[..|page|] == page;
      cursors := cursors[aggregate := next];
      forall a: nat
        ensures ExactlyOnce(LogOf(store.logs, a), CursorOf(cursors, a), DeliveredFor(delivered, a))
      {
        DeliverPage(before, aggregate, page, a);
        assert DeliveredFor(before, a) + [] == DeliveredFor(before, a);
        if a == aggregate {
          PageExtends(LogOf(store.logs, a), since, page, DeliveredFor(before, a));
        }
      }
    }
  }

  lemma RunSnoc(parse: Rewards.Parser, local: string, delivered: seq<Delivery>, next: Delivery)
    ensures Run(parse, local, EventsOf(delivered + [next]))
            == Applied(parse, local, Run(parse, local, EventsOf(delivered)), next.what.event)
  {
    hide Applied;
    var events := EventsOf(delivered + [next]);
    assert events[..|delivered|] == EventsOf(delivered);
  }

  /**
   * The in-memory log labels a read from 0 with numbers from 0. Behind such a page the cursor is one
   * short, so the next page starts with the last event again.
   */
  lemma ZeroBasedLabelsRedeliver(log: seq<Event>, first: seq<Sequenced>, second: seq<Sequenced>)
    requires first != [] && |first| <= |log|
    requires forall i :: 0 <= i < |first| ==> first[i] == Sequenced(i, log[i])
    requires IsPage(log, MaxSeq(first, 0) + 1, second)
    ensures |second| > 0
    ensures second[0].event == first[|first| - 1].event
  {
    ZeroBasedMax(log, first);
    assert StartOf(MaxSeq(first, 0) + 1) == |first| - 1;
  }

  lemma {:induction false} ZeroBasedMax(log: seq<Event>, page: seq<Sequenced>)
    requires page != [] && |page| <= |log|
    requires forall i :: 0 <= i < |page| ==> page[i] == Sequenced(i, log[i])
    ensures MaxSeq(page, 0) == |page| - 1
    decreases |page|
  {
    if |page| > 1 {
      ZeroBasedMax(log, page[..|page| - 1]);
    }
  }
}
