/**
 * The crash protocol of the event log, one byte at a time: records are framed into the segment,
 * index entries follow whole frames, the process may stop at any point, and reopening truncates
 * to the indexed records and appends the recovered ones again.
 */
module Recovery {
  import opened Bytes
  import opened Frames
  import opened Inspection

  /**
   * `queue` holds the submitted records without an index entry and `written` how many bytes of
   * their frames have reached the segment. While the process is down they are history only: a
   * reopening replaces them by what it finds on disk.
   */
  datatype System = System(
    disk: Disk, up: bool, queue: seq<seq<byte>>, written: nat,
    indexed: seq<seq<byte>>, submitted: seq<seq<byte>>)

  datatype Step =
    | Append(payload: seq<byte>)
    | WriteByte
    | WriteEntry
    | Crash
    | Reopen

  predicate Acceptable<E>(codec: Codec<E>, payload: seq<byte>)
  {
    codec.decode(payload).Some? && |payload| <= MAX_MESSAGE_BYTES
  }

  predicate AllAcceptable<E>(codec: Codec<E>, payloads: seq<seq<byte>>)
  {
    forall i :: 0 <= i < |payloads| ==> Acceptable(codec, payloads[i])
  }

  /** The active segment and its index have space for all these records; otherwise the log rolls over. */
  predicate Room(base: nat, indexBytes: nat, payloads: seq<seq<byte>>)
  {
    && 8 * |payloads| <= indexBytes
    && |payloads| <= 0x1_0000_0000
    && base + |payloads| <= 0x1_0000_0000_0000_0000
    && MAGIC_BYTES + TotalSize(PlainRun(base, payloads)) <= 0x1_0000_0000
  }

  function Pending(base: nat, s: System): seq<Frame> { PlainRun(base + |s.indexed|, s.queue) }

  /** Overwrites the slot of record number `slot`. */
  function PutEntry(index: seq<byte>, slot: nat, position: nat): (r: seq<byte>)
    requires 8 * (slot + 1) <= |index|
    ensures |r| == |index|
  {
    index[..8 * slot] + IndexEntry(slot, position) + index[8 * (slot + 1)..]
  }

  ghost predicate Next<E>(codec: Codec<E>, base: nat, s: System, step: Step, s': System)
  {
    match step
    case Append(p) =>
      && s.up
      && Acceptable(codec, p)
      && Room(base, |s.disk.index|, s.indexed + s.queue + [p])
      && s' == s.(queue := s.queue + [p], submitted := s.submitted + [p])
    case WriteByte =>
      && s.up
      && AllValid(Pending(base, s))
      && s.written < TotalSize(Pending(base, s))
      && s' == s.(disk := s.disk.(segment := s.disk.segment + [Concat(codec, Pending(base, s))[s.written]]),
                  written := s.written + 1)
    case WriteEntry =>
      && s.up
      && s.queue != []
      && Plain(base + |s.indexed|, s.queue[0]).Size() <= s.written
      && 8 * (|s.indexed| + 1) <= |s.disk.index|
      && var position := MAGIC_BYTES + TotalSize(PlainRun(base, s.indexed));
         s' == s.(disk := s.disk.(index := PutEntry(s.disk.index, |s.indexed|, position)),
                  queue := s.queue[1..],
                  written := s.written - Plain(base + |s.indexed|, s.queue[0]).Size(),
                  indexed := s.indexed + [s.queue[0]])
    case Crash =>
      s.up && s' == s.(up := false)
    case Reopen =>
      && !s.up
      && s' == match Inspect(codec, base, s.disk)
               case Err(_) => s
               case Ok(None) => s.(up := true, queue := [], written := 0)
               case Ok(Some(plan)) =>
                 if plan.indexedEnd <= |s.disk.segment| then
                   s.(disk := s.disk.(segment := s.disk.segment[..plan.indexedEnd]),
                      up := true, queue := plan.recovered, written := 0)
                 else s
  }

  ghost predicate Init(base: nat, s: System)
  {
    && s.up && s.queue == [] && s.written == 0 && s.indexed == [] && s.submitted == []
    && s.disk.segment == Magic()
    && (exists slots: nat :: s.disk.index == EmptySlots(slots))
    && base <= 0x1_0000_0000_0000_0000
  }

  ghost predicate IsRun<E>(codec: Codec<E>, base: nat, states: seq<System>, steps: seq<Step>)
  {
    && |states| == |steps| + 1
    && Init(base, states[0])
    && forall i :: 0 <= i < |steps| ==> Next(codec, base, states[i], steps[i], states[i + 1])
  }

  // ---------- the invariant ----------

  ghost predicate Inv<E>(codec: Codec<E>, base: nat, s: System)
  {
    && AllAcceptable(codec, s.indexed + s.queue)
    && Room(base, |s.disk.index|, s.indexed + s.queue)
    && AllValid(PlainRun(base, s.indexed)) && AllValid(Pending(base, s))
    && s.written <= TotalSize(Pending(base, s))
    && s.disk.segment ==
         Magic() + Concat(codec, PlainRun(base, s.indexed)) + Concat(codec, Pending(base, s))[..s.written]
    && |s.disk.index| % 8 == 0
    && s.disk.index == Entries(0, MAGIC_BYTES, PlainRun(base, s.indexed))
                       + EmptySlots(|s.disk.index| / 8 - |s.indexed|)
  }

  /** How many of the frames lie wholly within the first `written` bytes. */
  function WholeFrames(frames: seq<Frame>, written: nat): (n: nat)
    ensures n <= |frames|
    decreases |frames|
  {
    if frames == [] || written < frames[0].Size() then 0
    else 1 + WholeFrames(frames[1..], written - frames[0].Size())
  }

  /** The log this state stands for: what the running process holds, or what a reopening would find. */
  function Contents(base: nat, s: System): seq<seq<byte>>
  {
    s.indexed + if s.up then s.queue else s.queue[..WholeFrames(Pending(base, s), s.written)]
  }

  // ---------- cutting a run of frames at a byte ----------

  /** Cutting consecutive frames at any byte leaves whole frames and a remainder that does not read. */
  lemma {:induction false} CutFrames<E>(codec: Codec<E>, frames: seq<Frame>, written: nat) returns (torn: seq<byte>)
    requires AllValid(frames) && written <= TotalSize(frames)
    ensures Concat(codec, frames)[..written] == Concat(codec, frames[..WholeFrames(frames, written)]) + torn
    ensures ReadFrame(codec, torn, 0) == Incomplete
    ensures WholeFrames(frames, written) == |frames| <==> written == TotalSize(frames)
    ensures WholeFrames(frames, written) == 0 ==> |torn| == written
    decreases |frames|
  {
    hide Encode;
    hide ReadFrame;
    if frames == [] {
      torn := [];
      NothingReads(codec);
    } else if written < frames[0].Size() {
      torn := Encode(codec, frames[0])[..written];
      TornFrameIncomplete(codec, codec, [], frames[0], written);
      assert [] + torn == torn;
      assert Concat(codec, frames)[..written] == torn;
      assert Concat(codec, []) + torn == torn;
    } else {
      var size := frames[0].Size();
      torn := CutFrames(codec, frames[1..], written - size);
      var n := WholeFrames(frames[1..], written - size);
      assert frames[..n + 1][1..] == frames[1..][..n] && frames[..n + 1][0] == frames[0];
      assert Concat(codec, frames)[..written]
          == Encode(codec, frames[0]) + Concat(codec, frames[1..])[..written - size];
      Associate(Encode(codec, frames[0]), Concat(codec, frames[1..][..n]), torn);
    }
  }

  lemma NothingReads<E>(codec: Codec<E>)
    ensures ReadFrame(codec, [], 0) == Incomplete
  {
  }

  // ---------- the on-disk image of an invariant state ----------

  lemma PlainValid<E>(codec: Codec<E>, base: nat, payloads: seq<seq<byte>>)
    requires AllAcceptable(codec, payloads) && base + |payloads| <= 0x1_0000_0000_0000_0000
    ensures Records(codec, base, PlainRun(base, payloads))
    ensures Payloads(PlainRun(base, payloads)) == payloads
  {
    forall i | 0 <= i < |payloads|
      ensures PlainRun(base, payloads)[i].Valid()
    {
      assert Acceptable(codec, payloads[i]);
      assert PlainRun(base, payloads)[i].Body() == payloads[i];
    }
  }

  lemma {:induction false} TotalSizePrefix(frames: seq<Frame>, n: nat)
    requires n <= |frames|
    ensures TotalSize(frames[..n]) <= TotalSize(frames)
    ensures n < |frames| ==> TotalSize(frames[..n]) < TotalSize(frames)
    decreases |frames|
  {
    if n > 0 {
      assert frames[..n][1..] == frames[1..][..n - 1];
      TotalSizePrefix(frames[1..], n - 1);
    }
  }

  /** Any state the protocol can reach, running or stopped, has files the inspection accepts. */
  lemma ImageLaidOut<E>(codec: Codec<E>, base: nat, s: System) returns (torn: seq<byte>)
    requires Inv(codec, base, s)
    ensures var n := WholeFrames(Pending(base, s), s.written);
            Layout(codec, base, s.disk, PlainRun(base, s.indexed), PlainRun(base + |s.indexed|, s.queue[..n]), torn,
                   |s.disk.index| / 8 - |s.indexed|)
    ensures WholeFrames(Pending(base, s), s.written) == 0 ==> |torn| == s.written
  {
    hide TotalSize;
    hide AllAcceptable;
    hide Records;
    hide Room;
    hide Encode;
    hide ReadFrame;
    hide Concat;
    hide Entries;
    var pending := Pending(base, s);
    var n := WholeFrames(pending, s.written);
    torn := CutFrames(codec, pending, s.written);
    assert pending[..n] == PlainRun(base + |s.indexed|, s.queue[..n]);
    RoomForPositions(base, s);
    SplitAcceptable(codec, s.indexed, s.queue);
    assert s.queue == s.queue[..n] + s.queue[n..];
    SplitAcceptable(codec, s.queue[..n], s.queue[n..]);
    PlainValid(codec, base, s.indexed);
    PlainValid(codec, base + |s.indexed|, s.queue[..n]);
    Associate(Magic() + Concat(codec, PlainRun(base, s.indexed)), Concat(codec, pending[..n]), torn);
  }

  lemma SplitAcceptable<E>(codec: Codec<E>, a: seq<seq<byte>>, b: seq<seq<byte>>)
    ensures AllAcceptable(codec, a + b) <==> AllAcceptable(codec, a) && AllAcceptable(codec, b)
  {
    if AllAcceptable(codec, a + b) {
      forall i | 0 <= i < |a| ensures Acceptable(codec, a[i]) { assert (a + b)[i] == a[i]; }
      forall i | 0 <= i < |b| ensures Acceptable(codec, b[i]) { assert (a + b)[|a| + i] == b[i]; }
    }
  }

  lemma RoomForPositions(base: nat, s: System)
    requires Room(base, |s.disk.index|, s.indexed + s.queue)
    ensures var run := PlainRun(base, s.indexed);
            |run| <= 0x1_0000_0000 && (run == [] || MAGIC_BYTES + TotalSize(run[..|run| - 1]) < 0x1_0000_0000)
    ensures 8 * |s.indexed| <= |s.disk.index|
    ensures base + |s.indexed| + |s.queue| <= 0x1_0000_0000_0000_0000
  {
    var run := PlainRun(base, s.indexed);
    var all := PlainRun(base, s.indexed + s.queue);
    if run != [] {
      assert all[..|run| - 1] == run[..|run| - 1];
      TotalSizePrefix(all, |run| - 1);
    }
  }

  /**
   * Crash at any byte: whatever was written before the process stopped, a reopening accepts the
   * files, keeps the indexed records and recovers exactly the frames that were wholly written.
   */
  lemma ReopeningRecovers<E>(codec: Codec<E>, base: nat, s: System)
    requires Inv(codec, base, s)
    ensures var n := WholeFrames(Pending(base, s), s.written);
            Inspect(codec, base, s.disk) ==
            if s.written == 0 then Ok(None)
            else Ok(Some(Plan(MAGIC_BYTES + TotalSize(PlainRun(base, s.indexed)), |s.disk.segment|,
                              base + |s.indexed|, s.queue[..n])))
  {
    hide Layout;
    hide Concat;
    hide Entries;
    hide TotalSize;
    hide ReadFrame;
    var n := WholeFrames(Pending(base, s), s.written);
    var torn := ImageLaidOut(codec, base, s);
    var tail := PlainRun(base + |s.indexed|, s.queue[..n]);
    LayoutAccepted(codec, base, s.disk, PlainRun(base, s.indexed), tail, torn,
                   |s.disk.index| / 8 - |s.indexed|);
    SplitAcceptable(codec, s.indexed, s.queue);
    PlainValid(codec, base + |s.indexed|, s.queue[..n]);
    assert n > 0 ==> s.written > 0;
    assert |tail| == n;
  }

  // ---------- every step keeps the invariant ----------

  lemma InitHolds<E>(codec: Codec<E>, base: nat, s: System)
    requires Init(base, s)
    ensures Inv(codec, base, s)
  {
    var slots: nat :| s.disk.index == EmptySlots(slots);
    assert |s.disk.index| == 8 * slots;
    assert s.indexed + s.queue == [];
    assert PlainRun(base, []) == [];
    assert Magic() + [] + [] == Magic();
    assert [] + EmptySlots(slots) == EmptySlots(slots);
  }

  lemma OneAcceptable<E>(codec: Codec<E>, p: seq<byte>)
    requires Acceptable(codec, p)
    ensures AllAcceptable(codec, [p])
  {
  }

  lemma AppendKeeps<E>(codec: Codec<E>, base: nat, s: System, p: seq<byte>, s': System)
    requires Inv(codec, base, s) && Next(codec, base, s, Append(p), s')
    ensures Inv(codec, base, s')
  {
    hide Concat;
    hide Entries;
    hide Room;
    hide AllAcceptable;
    hide TotalSize;
    assert s'.indexed + s'.queue == s.indexed + s.queue + [p];
    RoomForPositions(base, s');
    assert AllAcceptable(codec, [p]) by { OneAcceptable(codec, p); }
    SplitAcceptable(codec, s.indexed + s.queue, [p]);
    SplitAcceptable(codec, s'.indexed, s'.queue);
    PlainValid(codec, base + |s.indexed|, s'.queue);
    var more := [Plain(base + |s.indexed| + |s.queue|, p)];
    assert Pending(base, s') == Pending(base, s) + more;
    ConcatAppend(codec, Pending(base, s), more);
    assert (Concat(codec, Pending(base, s)) + Concat(codec, more))[..s.written]
        == Concat(codec, Pending(base, s))[..s.written];
  }

  lemma WriteByteKeeps<E>(codec: Codec<E>, base: nat, s: System, s': System)
    requires Inv(codec, base, s) && Next(codec, base, s, WriteByte, s')
    ensures Inv(codec, base, s')
  {
    hide Concat;
    hide Entries;
    hide TotalSize;
    var bytes := Concat(codec, Pending(base, s));
    assert bytes[..s.written + 1] == bytes[..s.written] + [bytes[s.written]];
    Associate(Magic() + Concat(codec, PlainRun(base, s.indexed)), bytes[..s.written], [bytes[s.written]]);
  }

  lemma {:induction false} EntriesSnoc(from: nat, position: nat, frames: seq<Frame>, last: Frame)
    ensures Entries(from, position, frames + [last])
            == Entries(from, position, frames) + IndexEntry(from + |frames|, position + TotalSize(frames))
    decreases |frames|
  {
    hide IndexEntry;
    if frames == [] {
      assert frames + [last] == [last];
      assert Entries(from + 1, position + last.Size(), []) == [];
    } else {
      var next := position + frames[0].Size();
      EntriesSnoc(from + 1, next, frames[1..], last);
      assert (frames + [last])[1..] == frames[1..] + [last];
      Associate(IndexEntry(from, position), Entries(from + 1, next, frames[1..]),
                IndexEntry(from + |frames|, position + TotalSize(frames)));
    }
  }

  lemma PutEntryFillsSlot(entries: seq<byte>, slots: nat, slot: nat, position: nat)
    requires |entries| == 8 * slot && slots > 0
    ensures PutEntry(entries + EmptySlots(slots), slot, position)
            == entries + IndexEntry(slot, position) + EmptySlots(slots - 1)
  {
    hide IndexEntry;
  }

  lemma MoveFirst<E>(codec: Codec<E>, base: nat, s: System)
    requires s.queue != [] && AllValid(PlainRun(base, s.indexed)) && AllValid(Pending(base, s))
    requires s.queue[0] == Pending(base, s)[0].payload
    requires Pending(base, s)[0].Size() <= s.written <= TotalSize(Pending(base, s))
    ensures var first := Plain(base + |s.indexed|, s.queue[0]);
            var rest := PlainRun(base + |s.indexed| + 1, s.queue[1..]);
            && first == Pending(base, s)[0]
            && PlainRun(base, s.indexed + [s.queue[0]]) == PlainRun(base, s.indexed) + [first]
            && AllValid(PlainRun(base, s.indexed + [s.queue[0]])) && AllValid(rest)
            && s.written - first.Size() <= TotalSize(rest)
            && Concat(codec, PlainRun(base, s.indexed)) + Concat(codec, Pending(base, s))[..s.written]
               == Concat(codec, PlainRun(base, s.indexed + [s.queue[0]])) +
                  Concat(codec, rest)[..s.written - first.Size()]
  {
    hide Encode;
    var first := Pending(base, s)[0];
    var run := PlainRun(base, s.indexed);
    var rest := PlainRun(base + |s.indexed| + 1, s.queue[1..]);
    assert Pending(base, s)[1..] == rest;
    assert PlainRun(base, s.indexed + [s.queue[0]]) == run + [first];
    ConcatAppend(codec, run, [first]);
    SingleConcat(codec, first);
    var cut := Concat(codec, rest)[..s.written - first.Size()];
    assert Concat(codec, Pending(base, s))[..s.written] == Encode(codec, first) + cut;
    Associate(Concat(codec, run), Encode(codec, first), cut);
  }

  lemma SingleConcat<E>(codec: Codec<E>, f: Frame)
    requires f.Valid()
    ensures Concat(codec, [f]) == Encode(codec, f)
  {
    hide Encode;
    assert Encode(codec, f) + [] == Encode(codec, f);
  }

  lemma WriteEntryKeeps<E>(codec: Codec<E>, base: nat, s: System, s': System)
    requires Inv(codec, base, s) && Next(codec, base, s, WriteEntry, s')
    ensures Inv(codec, base, s')
  {
    hide Concat;
    hide Entries;
    hide TotalSize;
    hide IndexEntry;
    hide PutEntry;
    var first := Plain(base + |s.indexed|, s.queue[0]);
    var run := PlainRun(base, s.indexed);
    assert s'.indexed + s'.queue == s.indexed + s.queue;
    assert Pending(base, s)[0] == first;
    MoveFirst(codec, base, s);
    assert Pending(base, s') == PlainRun(base + |s.indexed| + 1, s.queue[1..]);
    Associate(Magic(), Concat(codec, run), Concat(codec, Pending(base, s))[..s.written]);
    Associate(Magic(), Concat(codec, PlainRun(base, s'.indexed)), Concat(codec, Pending(base, s'))[..s'.written]);
    EntriesSnoc(0, MAGIC_BYTES, run, first);
    PutEntryFillsSlot(Entries(0, MAGIC_BYTES, run), |s.disk.index| / 8 - |s.indexed|,
                      |s.indexed|, MAGIC_BYTES + TotalSize(run));
  }

  lemma ReopenKeeps<E>(codec: Codec<E>, base: nat, s: System, s': System)
    requires Inv(codec, base, s) && Next(codec, base, s, Reopen, s')
    ensures Inv(codec, base, s')
    ensures s'.up && s'.indexed == s.indexed && s'.queue == s.queue[..WholeFrames(Pending(base, s), s.written)]
  {
    hide Inspect;
    hide Concat;
    hide Entries;
    hide TotalSize;
    hide Room;
    hide AllAcceptable;
    ReopeningRecovers(codec, base, s);
    var n := WholeFrames(Pending(base, s), s.written);
    var run := PlainRun(base, s.indexed);
    RoomForPositions(base, s);
    assert n > 0 ==> s.written > 0;
    assert s'.indexed == s.indexed && s'.queue == s.queue[..n] && s'.written == 0;
    PrefixKeepsRoom(codec, base, |s.disk.index|, s.indexed, s.queue, n);
    assert Pending(base, s') == Pending(base, s)[..n];
    var rest := Concat(codec, Pending(base, s))[..s.written];
    assert |Magic() + Concat(codec, run)| == MAGIC_BYTES + TotalSize(run);
    assert s.disk.segment[..MAGIC_BYTES + TotalSize(run)] == Magic() + Concat(codec, run);
    assert s.written == 0 ==> rest == [];
    assert s'.disk.segment == Magic() + Concat(codec, run) + Concat(codec, Pending(base, s'))[..0];
  }

  lemma PrefixKeepsRoom<E>(
    codec: Codec<E>, base: nat, indexBytes: nat, indexed: seq<seq<byte>>, queue: seq<seq<byte>>, n: nat)
    requires n <= |queue| && AllAcceptable(codec, indexed + queue) && Room(base, indexBytes, indexed + queue)
    ensures AllAcceptable(codec, indexed + queue[..n]) && Room(base, indexBytes, indexed + queue[..n])
  {
    var kept := indexed + queue[..n];
    assert indexed + queue == kept + queue[n..];
    SplitAcceptable(codec, kept, queue[n..]);
    assert PlainRun(base, kept) == PlainRun(base, indexed + queue)[..|kept|];
    TotalSizePrefix(PlainRun(base, indexed + queue), |kept|);
  }

  lemma StepKeeps<E>(codec: Codec<E>, base: nat, s: System, step: Step, s': System)
    requires Inv(codec, base, s) && Next(codec, base, s, step, s')
    ensures Inv(codec, base, s')
  {
    hide Inv;
    hide Next;
    match step
    case Append(p) => AppendKeeps(codec, base, s, p, s');
    case WriteByte => WriteByteKeeps(codec, base, s, s');
    case WriteEntry => WriteEntryKeeps(codec, base, s, s');
    case Crash => CrashKeeps(codec, base, s, s');
    case Reopen => ReopenKeeps(codec, base, s, s');
  }

  lemma CrashKeeps<E>(codec: Codec<E>, base: nat, s: System, s': System)
    requires Inv(codec, base, s) && Next(codec, base, s, Crash, s')
    ensures Inv(codec, base, s')
  {
    hide Concat;
    hide Entries;
    hide TotalSize;
    assert Pending(base, s') == Pending(base, s);
  }

  // ---------- each step seen as a step of a plain list of records ----------

  /**
   * Only an append adds to the log, only a crash takes from it, and a crash takes exactly the
   * records whose frames were not wholly written; indexed records are always kept.
   */
  lemma StepRefinesList<E>(codec: Codec<E>, base: nat, s: System, step: Step, s': System)
    requires Inv(codec, base, s) && Next(codec, base, s, step, s')
    ensures step.Append? ==> Contents(base, s') == Contents(base, s) + [step.payload]
    ensures step.WriteByte? || step.WriteEntry? || step.Reopen? ==> Contents(base, s') == Contents(base, s)
    ensures step.Crash? ==>
              Contents(base, s') == Contents(base, s)[..|s.indexed| + WholeFrames(Pending(base, s), s.written)]
    ensures step.Crash? ==> (Contents(base, s') == Contents(base, s) <==> s.written == TotalSize(Pending(base, s)))
    ensures s.indexed <= s'.indexed <= Contents(base, s')
    ensures step.Reopen? ==> s'.up
  {
    hide Concat;
    hide Entries;
    hide TotalSize;
    hide Room;
    hide AllAcceptable;
    match step
    case Append(p) =>
      assert s.indexed + (s.queue + [p]) == s.indexed + s.queue + [p];
    case WriteByte =>
    case WriteEntry =>
      assert s.indexed + [s.queue[0]] + s.queue[1..] == s.indexed + s.queue;
    case Crash =>
      assert Pending(base, s') == Pending(base, s);
      var torn := CutFrames(codec, Pending(base, s), s.written);
      var n := WholeFrames(Pending(base, s), s.written);
      assert s.indexed + s.queue[..n] == (s.indexed + s.queue)[..|s.indexed| + n];
      assert |Contents(base, s)| == |s.indexed| + |s.queue|;
    case Reopen =>
      ReopenKeeps(codec, base, s, s');
  }

  // ---------- whole runs ----------

  /** `a` lists some of the elements of `b`, each position at most once and in the same order. */
  predicate Subsequence<T(==)>(a: seq<T>, b: seq<T>)
    decreases |b|
  {
    a == []
    || (b != []
        && ((a[|a| - 1] == b[|b| - 1] && Subsequence(a[..|a| - 1], b[..|b| - 1]))
            || Subsequence(a, b[..|b| - 1])))
  }

  lemma SubsequenceBoth<T>(a: seq<T>, b: seq<T>, x: T)
    requires Subsequence(a, b)
    ensures Subsequence(a + [x], b + [x])
  {
    assert (a + [x])[..|a|] == a && (b + [x])[..|b|] == b;
  }

  lemma {:induction false} SubsequencePrefix<T>(a: seq<T>, b: seq<T>, n: nat)
    requires Subsequence(a, b) && n <= |a|
    ensures Subsequence(a[..n], b)
    decreases |b|
  {
    if n == |a| {
      assert a[..n] == a;
    } else if n > 0 {
      if a[|a| - 1] == b[|b| - 1] && Subsequence(a[..|a| - 1], b[..|b| - 1]) {
        assert a[..|a| - 1][..n] == a[..n];
        SubsequencePrefix(a[..|a| - 1], b[..|b| - 1], n);
      } else {
        SubsequencePrefix(a, b[..|b| - 1], n);
      }
    }
  }

  lemma {:induction false} RunInvariant<E>(codec: Codec<E>, base: nat, states: seq<System>, steps: seq<Step>, i: nat)
    requires IsRun(codec, base, states, steps) && i < |states|
    ensures Inv(codec, base, states[i])
    ensures Subsequence(Contents(base, states[i]), states[i].submitted)
  {
    hide Inv;
    if i == 0 {
      InitHolds(codec, base, states[0]);
    } else {
      var s, step, s' := states[i - 1], steps[i - 1], states[i];
      RunInvariant(codec, base, states, steps, i - 1);
      StepKeeps(codec, base, s, step, s');
      StepRefinesList(codec, base, s, step, s');
      SubmittedGrowsByAppend(codec, base, s, step, s');
      if step.Append? {
        SubsequenceBoth(Contents(base, s), s.submitted, step.payload);
      } else if step.Crash? {
        SubsequencePrefix(Contents(base, s), s.submitted, |s.indexed| + WholeFrames(Pending(base, s), s.written));
      }
    }
  }

  lemma SubmittedGrowsByAppend<E>(codec: Codec<E>, base: nat, s: System, step: Step, s': System)
    requires Next(codec, base, s, step, s')
    ensures s'.submitted == if step.Append? then s.submitted + [step.payload] else s.submitted
    ensures |s.indexed| + WholeFrames(Pending(base, s), s.written) <= |Contents(base, s)| || !s.up
    ensures step.Crash? ==> s.up
  {
    hide Inspect;
    hide WholeFrames;
  }

  /**
   * Over every run, with crashes anywhere: an indexed record is never lost, moved or changed; the
   * log is always some of the submitted records, in order and none twice; and every state,
   * stopped or not, can be reopened to exactly its contents.
   */
  lemma {:induction false} RunsKeepIndexedRecords<E>(
    codec: Codec<E>, base: nat, states: seq<System>, steps: seq<Step>, i: nat, j: nat)
    requires IsRun(codec, base, states, steps) && i <= j < |states|
    ensures states[i].indexed <= states[j].indexed <= Contents(base, states[j])
    ensures Subsequence(Contents(base, states[j]), states[j].submitted)
    ensures Inspect(codec, base, states[j].disk).Ok?
    decreases j - i
  {
    hide Inv;
    hide Inspect;
    RunInvariant(codec, base, states, steps, j);
    ReopeningRecovers(codec, base, states[j]);
    if i < j {
      RunInvariant(codec, base, states, steps, j - 1);
      StepRefinesList(codec, base, states[j - 1], steps[j - 1], states[j]);
      RunsKeepIndexedRecords(codec, base, states, steps, i, j - 1);
    }
  }

  /**
   * Crashes and reopenings with no append between them, any number of times: what is left is the
   * indexed records followed by some prefix of the others, never a gap, a repeat or a new order.
   */
  lemma {:induction false} InterruptedRecoveryKeepsPrefix<E>(
    codec: Codec<E>, base: nat, states: seq<System>, steps: seq<Step>, i: nat, j: nat)
    requires IsRun(codec, base, states, steps) && i <= j < |states|
    requires forall k :: i <= k < j ==> !steps[k].Append?
    ensures states[i].indexed <= Contents(base, states[j]) <= Contents(base, states[i])
    decreases j - i
  {
    hide Inv;
    if i == j {
      RunInvariant(codec, base, states, steps, i);
    } else {
      RunInvariant(codec, base, states, steps, j - 1);
      StepRefinesList(codec, base, states[j - 1], steps[j - 1], states[j]);
      SubmittedGrowsByAppend(codec, base, states[j - 1], steps[j - 1], states[j]);
      RunsKeepIndexedRecords(codec, base, states, steps, i, j);
      InterruptedRecoveryKeepsPrefix(codec, base, states, steps, i, j - 1);
    }
  }

  /**
   * A second crash right after recovery truncated the segment drops the whole unindexed tail: the
   * reopening that follows finds the indexed records and nothing else.
   */
  lemma CrashAfterTruncationDropsTail<E>(codec: Codec<E>, base: nat, s: System, reopened: System, crashed: System)
    requires Inv(codec, base, s) && !s.up
    requires Next(codec, base, s, Reopen, reopened) && Next(codec, base, reopened, Crash, crashed)
    ensures Contents(base, crashed) == s.indexed
    ensures Contents(base, crashed) == Contents(base, s) <==> WholeFrames(Pending(base, s), s.written) == 0
    ensures Inspect(codec, base, crashed.disk) == Ok(None)
  {
    hide Inspect;
    hide Room;
    hide AllAcceptable;
    hide Entries;
    hide Concat;
    ReopenKeeps(codec, base, s, reopened);
    OpenedAtStart(codec, base, s, reopened);
    CrashKeeps(codec, base, reopened, crashed);
    ReopeningRecovers(codec, base, crashed);
    assert WholeFrames(Pending(base, crashed), 0) == 0;
    assert Contents(base, crashed) == s.indexed + [] == s.indexed;
    assert |Contents(base, s)| == |s.indexed| + WholeFrames(Pending(base, s), s.written);
  }

  lemma OpenedAtStart<E>(codec: Codec<E>, base: nat, s: System, reopened: System)
    requires Inv(codec, base, s) && Next(codec, base, s, Reopen, reopened)
    ensures reopened.written == 0
  {
    hide Inspect;
    hide Inv;
    ReopenKeeps(codec, base, s, reopened);
    ReopeningRecovers(codec, base, s);
  }

  /** Whenever some whole record is still unindexed, that loss does happen: both steps can be taken. */
  lemma TailLossIsReachable<E>(codec: Codec<E>, base: nat, s: System) returns (reopened: System, crashed: System)
    requires Inv(codec, base, s) && !s.up && WholeFrames(Pending(base, s), s.written) > 0
    ensures Next(codec, base, s, Reopen, reopened) && Next(codec, base, reopened, Crash, crashed)
    ensures |Contents(base, crashed)| < |Contents(base, s)|
  {
    hide Inspect;
    hide Inv;
    ReopeningRecovers(codec, base, s);
    var n := WholeFrames(Pending(base, s), s.written);
    var indexedEnd := MAGIC_BYTES + TotalSize(PlainRun(base, s.indexed));
    IndexedEndInFile(codec, base, s);
    reopened := s.(disk := s.disk.(segment := s.disk.segment[..indexedEnd]), up := true,
                   queue := s.queue[..n], written := 0);
    crashed := reopened.(up := false);
    CrashAfterTruncationDropsTail(codec, base, s, reopened, crashed);
  }

  /**
   * And such a state is reached from an empty log: one append, all its bytes, and a stop before the
   * entry is written; then recovery, and a second stop, leave a log without the record.
   */
  lemma TailLossFromEmptyLog<E>(codec: Codec<E>, base: nat, start: System, payload: seq<byte>)
    returns (states: seq<System>, steps: seq<Step>)
    requires Init(base, start) && Acceptable(codec, payload) && Room(base, |start.disk.index|, [payload])
    ensures IsRun(codec, base, states, steps) && states[0] == start && |states| >= 3
    ensures Contents(base, states[|states| - 3]) == [payload] && Contents(base, states[|states| - 1]) == []
    ensures steps[|steps| - 2..] == [Reopen, Crash]
  {
    hide Inspect;
    hide Inv;
    hide TotalSize;
    hide Room;
    InitHolds(codec, base, start);
    assert start.indexed + start.queue + [payload] == [payload];
    var appended := start.(queue := start.queue + [payload], submitted := start.submitted + [payload]);
    AppendKeeps(codec, base, start, payload, appended);
    states, steps := [start, appended], [Append(payload)];
    assert Next(codec, base, start, Append(payload), appended);
    states, steps := WriteAll(codec, base, states, steps);
    var full := states[|states| - 1];
    var stopped := full.(up := false);
    CrashKeeps(codec, base, full, stopped);
    WholeFrame(base, stopped, payload);
    var reopened, crashed := TailLossIsReachable(codec, base, stopped);
    CrashAfterTruncationDropsTail(codec, base, stopped, reopened, crashed);
    states, steps := states + [stopped, reopened, crashed], steps + [Crash, Reopen, Crash];
  }

  lemma WholeFrame(base: nat, s: System, payload: seq<byte>)
    requires s.indexed == [] && s.queue == [payload] && s.written == TotalSize(Pending(base, s)) && !s.up
    ensures WholeFrames(Pending(base, s), s.written) == 1
    ensures Contents(base, s) == [payload]
  {
    var run := Pending(base, s);
    assert |run| == 1;
    assert run[1..] == [];
    assert TotalSize(run) == run[0].Size() + TotalSize(run[1..]);
    assert s.queue[..1] == [payload];
  }

  lemma PendingBytes<E>(codec: Codec<E>, base: nat, s: System)
    requires Inv(codec, base, s)
    ensures AllValid(Pending(base, s)) && s.written <= TotalSize(Pending(base, s))
  {
    hide Concat;
    hide Entries;
    hide Room;
    hide TotalSize;
  }

  /** The rest of the queue's bytes, one at a time. */
  lemma WriteAll<E>(codec: Codec<E>, base: nat, before: seq<System>, taken: seq<Step>)
    returns (states: seq<System>, steps: seq<Step>)
    requires IsRun(codec, base, before, taken)
    requires var s := before[|before| - 1];
             s.up && Inv(codec, base, s)
    ensures IsRun(codec, base, states, steps) && |states| >= |before| && states[0] == before[0]
    ensures var s, s' := before[|before| - 1], states[|states| - 1];
            && Inv(codec, base, s')
            && s'.up && s'.indexed == s.indexed && s'.queue == s.queue && s'.written == TotalSize(Pending(base, s))
    decreases TotalSize(Pending(base, before[|before| - 1])) - before[|before| - 1].written
  {
    hide Inv;
    hide TotalSize;
    hide Concat;
    var s := before[|before| - 1];
    PendingBytes(codec, base, s);
    if s.written == TotalSize(Pending(base, s)) {
      states, steps := before, taken;
    } else {
      var s' := s.(disk := s.disk.(segment := s.disk.segment + [Concat(codec, Pending(base, s))[s.written]]),
                   written := s.written + 1);
      WriteByteKeeps(codec, base, s, s');
      states, steps := WriteAll(codec, base, before + [s'], taken + [WriteByte]);
    }
  }

  lemma IndexedEndInFile<E>(codec: Codec<E>, base: nat, s: System)
    requires Inv(codec, base, s)
    ensures MAGIC_BYTES + TotalSize(PlainRun(base, s.indexed)) <= |s.disk.segment|
  {
    hide Concat;
    hide Entries;
    hide Room;
    hide TotalSize;
  }
}
