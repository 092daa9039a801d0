/** The durable event log over its segment files, and the in-memory log it must agree with. */
module EventLogs {
  import opened Bytes
  import opened Frames
  import opened Inspection
  import opened Recovery

  /** One record as the commit log hands it out. */
  datatype Message = Message(offset: nat, size: nat, metadataSize: nat, payload: seq<byte>)

  function MessageOf(f: Frame): Message { Message(f.offset, |f.Body()|, |f.metadata|, f.payload) }

  function MessagesOf(frames: seq<Frame>): (ms: seq<Message>)
    ensures |ms| == |frames|
  {
    seq(|frames|, i requires 0 <= i < |frames| => MessageOf(frames[i]))
  }

  // ---------- what a read means ----------

  /** Records are decoded in order; the first bad one fails the whole read. */
  function Decoded<E>(codec: Codec<E>, messages: seq<Message>): Result<seq<(nat, E)>, LogError>
  {
    if messages == [] then Ok([])
    else if messages[0].metadataSize > messages[0].size then Err(InvalidMetadataLength)
    else match codec.decode(messages[0].payload)
      case None => Err(EventUndecodable)
      case Some(e) =>
        match Decoded(codec, messages[1..])
        case Err(error) => Err(error)
        case Ok(rest) => Ok([(messages[0].offset + 1, e)] + rest)
  }

  /** The window of a list that starts at a 1-based sequence number and holds at most `limit` items. */
  function Window<T>(items: seq<T>, from: nat, limit: Option<nat>): seq<T>
  {
    var start := if from == 0 then 0 else from - 1;
    if start >= |items| then []
    else if limit.Some? && limit.value < |items| - start then items[start..start + limit.value]
    else items[start..]
  }

  ghost predicate Readable<E>(codec: Codec<E>, m: Message)
  {
    m.metadataSize <= m.size && codec.decode(m.payload).Some?
  }

  /** A read succeeds exactly when every record of its window is readable, and then labels each by its position. */
  lemma {:induction false} DecodedExactly<E>(codec: Codec<E>, messages: seq<Message>)
    ensures Decoded(codec, messages).Ok? <==> forall i :: 0 <= i < |messages| ==> Readable(codec, messages[i])
    ensures Decoded(codec, messages).Ok? ==>
              && |Decoded(codec, messages).value| == |messages|
              && forall i :: 0 <= i < |messages| ==>
                   Some(Decoded(codec, messages).value[i].1) == codec.decode(messages[i].payload)
                   && Decoded(codec, messages).value[i].0 == messages[i].offset + 1
  {
    if messages != [] {
      DecodedExactly(codec, messages[1..]);
      if Decoded(codec, messages).Ok? {
        forall i | 0 <= i < |messages| ensures Readable(codec, messages[i]) {
          if i > 0 { assert messages[i] == messages[1..][i - 1]; }
        }
      }
    }
  }

  ghost function Continue<E>(front: seq<(nat, E)>, r: Result<seq<(nat, E)>, LogError>): Result<seq<(nat, E)>, LogError>
  {
    match r
    case Err(error) => Err(error)
    case Ok(rest) => Ok(front + rest)
  }

  lemma ContinueOne<E>(front: seq<(nat, E)>, one: (nat, E), r: Result<seq<(nat, E)>, LogError>)
    ensures Continue(front, Continue([one], r)) == Continue(front + [one], r)
  {
    if r.Ok? {
      assert front + ([one] + r.value) == front + [one] + r.value;
    }
  }

  // ---------- the files and the log ----------

  /** The active segment and index on disk; `closed` holds the records of earlier segments. */
  class LogFiles {
    const closed: seq<Message>
    var segment: seq<byte>
    var index: seq<byte>

    constructor (closed: seq<Message>, segment: seq<byte>, index: seq<byte>)
      ensures this.closed == closed && this.segment == segment && this.index == index
    {
      this.closed := closed;
      this.segment := segment;
      this.index := index;
    }

    function OnDisk(): Disk
      reads this
    {
      Disk(segment, index)
    }
  }

  datatype OpenMode = RecoverTail | ValidateOnly

  datatype AppendError = TooLarge | SegmentFull

  /** The active files hold exactly these records, all of them indexed. */
  ghost predicate Image<E>(codec: Codec<E>, base: nat, disk: Disk, frames: seq<Frame>, slots: nat)
  {
    && AllValid(frames)
    && (forall i :: 0 <= i < |frames| ==> frames[i].offset == base + i)
    && Indexable(frames)
    && disk.segment == Magic() + Concat(codec, frames)
    && disk.index == Entries(0, MAGIC_BYTES, frames) + EmptySlots(slots)
  }

  /** Every record number and position fits the four bytes the index has for it. */
  predicate Indexable(frames: seq<Frame>)
  {
    && |frames| <= 0x1_0000_0000
    && (frames == [] || MAGIC_BYTES + TotalSize(frames[..|frames| - 1]) < 0x1_0000_0000)
  }

  /** Space left for one more record before the log rolls over to a new segment. */
  predicate Fits(base: nat, frames: seq<Frame>, slots: nat)
  {
    && slots > 0
    && |frames| < 0x1_0000_0000
    && base + |frames| < 0x1_0000_0000_0000_0000
    && MAGIC_BYTES + TotalSize(frames) < 0x1_0000_0000
  }

  /** The library numbers the records of the closed segments from zero. */
  predicate Numbered(messages: seq<Message>)
  {
    forall i :: 0 <= i < |messages| ==> messages[i].offset == i
  }

  class CommitLogEventLog<E> {
    const codec: Codec<E>
    const files: LogFiles
    var active: seq<Frame>
    var slots: nat

    ghost predicate Valid()
      reads this, files
    {
      Numbered(files.closed) && Image(codec, |files.closed|, files.OnDisk(), active, slots)
    }

    function Messages(): (ms: seq<Message>)
      reads this
      ensures |ms| == |files.closed| + |active|
    {
      files.closed + MessagesOf(active)
    }

    /** Attaches to files that hold exactly these indexed records. */
    constructor (codec: Codec<E>, files: LogFiles, ghost frames: seq<Frame>, positions: seq<nat>, slots: nat)
      requires Numbered(files.closed)
      requires Image(codec, |files.closed|, files.OnDisk(), frames, slots)
      requires positions == Positions(MAGIC_BYTES, frames)
      ensures Valid()
      ensures this.codec == codec && this.files == files && this.active == frames && this.slots == slots
    {
      this.codec := codec;
      this.files := files;
      this.slots := slots;
      this.active := FramesAt(files.segment, positions);
      new;
      ReadBack(codec, files.segment, MAGIC_BYTES, frames);
    }

    /** The library's append: frame bytes first, then the index entry; answers the record's offset. */
    method AppendMessage(payload: seq<byte>) returns (r: Result<nat, AppendError>)
      requires Valid()
      modifies this, files
      ensures Valid()
      ensures r.Ok? <==> |payload| <= MAX_MESSAGE_BYTES && Fits(|files.closed|, old(active), old(slots))
      ensures r.Ok? ==> r.value == |files.closed| + |old(active)|
                        && active == old(active) + [Plain(r.value, payload)] && slots == old(slots) - 1
      ensures r.Err? ==> r.error == if |payload| > MAX_MESSAGE_BYTES then TooLarge else SegmentFull
      ensures r.Err? ==> active == old(active) && slots == old(slots) && files.OnDisk() == old(files.OnDisk())
    {
      if |payload| > MAX_MESSAGE_BYTES {
        return Err(TooLarge);
      }
      var base := |files.closed|;
      if !Fits(base, active, slots) {
        return Err(SegmentFull);
      }
      var frame := Plain(base + |active|, payload);
      var position := |files.segment|;
      assert frame.Body() == payload;
      AppendedImage(codec, base, files.OnDisk(), active, slots, frame);
      files.segment := files.segment + Encode(codec, frame);
      files.index := PutEntry(files.index, |active|, position);
      active := active + [frame];
      slots := slots - 1;
      return Ok(base + |active| - 1);
    }

    /**
     * Opens a log: inspects the tail, in recovery mode truncates it and appends its whole records
     * again, and finally reads everything back. In validation mode no byte changes.
     */
    static method Open(codec: Codec<E>, files: LogFiles, mode: OpenMode, batching: nat -> nat)
      returns (r: Result<CommitLogEventLog<E>, LogError>)
      requires Numbered(files.closed)
      modifies files
      ensures mode.ValidateOnly? ==> files.OnDisk() == old(files.OnDisk())
      ensures Inspect(codec, |files.closed|, old(files.OnDisk())).Err? ==>
                files.OnDisk() == old(files.OnDisk())
                && r == Err(Inspect(codec, |files.closed|, old(files.OnDisk())).error)
      ensures r.Ok? <==>
              && Inspect(codec, |files.closed|, old(files.OnDisk())).Ok?
              && (Inspect(codec, |files.closed|, old(files.OnDisk())).value.None?
                  || (mode.RecoverTail? && CanRestore(|files.closed|, IndexedFrames(old(files.OnDisk())),
                                                      FreeSlots(old(files.OnDisk())),
                                                      Unindexed(codec, |files.closed|, old(files.OnDisk())))))
              && Decoded(codec, files.closed).Ok?
      ensures Inspect(codec, |files.closed|, old(files.OnDisk())).Ok? &&
              Inspect(codec, |files.closed|, old(files.OnDisk())).value.Some? ==>
                && (mode.ValidateOnly? ==> r == Err(UncommittedTailDetected))
                && (mode.RecoverTail? && !CanRestore(|files.closed|, IndexedFrames(old(files.OnDisk())),
                                                     FreeSlots(old(files.OnDisk())),
                                                     Unindexed(codec, |files.closed|, old(files.OnDisk()))) ==>
                      r == Err(RestoreFailed))
      ensures r.Ok? ==>
              && fresh(r.value) && r.value.Valid() && r.value.codec == codec && r.value.files == files
              && r.value.active == Reopened(codec, |files.closed|, old(files.OnDisk()))
              && Inspect(codec, |files.closed|, files.OnDisk()) == Ok(None)
              && Decoded(codec, r.value.Messages()).Ok?
    {
      hide Image;
      hide Inspect;
      hide Layout;
      hide CanRestore;
      hide Decoded;
      hide ParseIndex;
      hide Records;
      hide IndexedFrames;
      hide FreeSlots;
      hide Unindexed;
      ghost var disk := files.OnDisk();
      var base := |files.closed|;
      var recovery := InspectActiveTail(codec, base, files.OnDisk());
      if recovery.Err? {
        return Err(recovery.error);
      }
      ghost var indexed, tail, torn, free := AcceptedHasLayout(codec, base, disk);
      LayoutFrames(codec, base, disk, indexed, tail, torn, free);
      TruncatedImage(codec, base, disk, indexed, tail, torn, free);
      if recovery.value.Some? {
        if mode.ValidateOnly? {
          return Err(UncommittedTailDetected);
        }
        // set_len: drop everything after the indexed records
        files.segment := files.segment[..recovery.value.value.indexedEnd];
      }
      var payloads := if recovery.value.Some? then recovery.value.value.recovered else [];
      assert payloads == Payloads(tail);
      assert Image(codec, base, files.OnDisk(), indexed, free);

      var positions := ScanIndex(files.index);
      var log := new CommitLogEventLog(codec, files, indexed, positions.value, |files.index| / 8 - |positions.value|);
      assert log.slots == free;
      var restored := log.Restore(payloads);
      CanRestoreNone(base, indexed, free);
      if !restored {
        return Err(RestoreFailed);
      }
      RestoredRecords(codec, base, indexed, tail, log.active, files.OnDisk(), log.slots);
      var check := log.ReadFromChecked(1, batching);
      ReadAll(log.Messages());
      OpenedReads(codec, files.closed, base, log.active);
      match check {
        case Err(e) => return Err(e);
        case Ok(_) => return Ok(log);
      }
    }

    /** Appends recovered payloads again, in order, stopping at the first that finds no space. */
    method Restore(payloads: seq<seq<byte>>) returns (restored: bool)
      requires Valid()
      modifies this, files
      ensures Valid()
      ensures restored <==> CanRestore(|files.closed|, old(active), old(slots), payloads)
      ensures restored ==> active == old(active) + PlainRun(|files.closed| + |old(active)|, payloads)
      ensures payloads == [] ==> files.OnDisk() == old(files.OnDisk())
    {
      hide Image;
      hide CanRestore;
      var base := |files.closed|;
      ghost var before := active;
      RestoredNothing(base, before);
      for i := 0 to |payloads|
        invariant Valid()
        invariant active == before + PlainRun(base + |before|, payloads[..i])
        invariant CanRestore(base, before, old(slots), payloads) == CanRestore(base, active, slots, payloads[i..])
        invariant i == 0 ==> files.OnDisk() == old(files.OnDisk())
      {
        CanRestoreStep(base, active, slots, payloads, i);
        var appended := AppendMessage(payloads[i]);
        if appended.Err? {
          return false;
        }
        assert appended.value == base + |before| + i;
        RestoredOne(base, before, payloads, i);
      }
      CanRestoreNothing(base, active, slots, payloads);
      assert payloads[..|payloads|] == payloads;
      return true;
    }

    /** Appends one payload and answers its 1-based sequence number. */
    method AppendBytes(bytes: seq<byte>) returns (r: Result<nat, AppendError>)
      requires Valid()
      modifies this, files
      ensures Valid()
      ensures r.Ok? <==> |bytes| <= MAX_MESSAGE_BYTES && Fits(|files.closed|, old(active), old(slots))
      ensures r.Ok? ==> r.value == |old(Messages())| + 1
                        && Messages() == old(Messages()) + [Message(|old(Messages())|, |bytes|, 0, bytes)]
      ensures r.Err? ==> Messages() == old(Messages()) && files.OnDisk() == old(files.OnDisk())
      ensures r.Err? ==> r.error == if |bytes| > MAX_MESSAGE_BYTES then TooLarge else SegmentFull
    {
      ghost var before := active;
      var appended := AppendMessage(bytes);
      match appended {
        case Err(e) => return Err(e);
        case Ok(offset) =>
          assert Plain(offset, bytes).Body() == bytes;
          assert MessagesOf(active) == MessagesOf(before) + [MessageOf(Plain(offset, bytes))];
          return Ok(offset + 1);
      }
    }

    /** Stores one event; together with what the log held before, it then holds one event more. */
    method Append(event: E) returns (r: Result<nat, AppendError>)
      requires Valid()
      modifies this, files
      ensures Valid()
      ensures r.Ok? <==>
              |codec.encode(event)| <= MAX_MESSAGE_BYTES && Fits(|files.closed|, old(active), old(slots))
      ensures r.Ok? ==> r.value == |old(Messages())| + 1
      ensures r.Ok? ==>
                var bytes := codec.encode(event);
                Messages() == old(Messages()) + [Message(|old(Messages())|, |bytes|, 0, bytes)]
      ensures r.Ok? && codec.decode(codec.encode(event)) == Some(event) ==>
                forall events :: Holds(codec, old(Messages()), events) ==> Holds(codec, Messages(), events + [event])
      ensures r.Err? ==> Messages() == old(Messages()) && files.OnDisk() == old(files.OnDisk())
      ensures r.Err? ==> r.error == if |codec.encode(event)| > MAX_MESSAGE_BYTES then TooLarge else SegmentFull
    {
      r := AppendBytes(codec.encode(event));
    }

    /** The number of the last record. */
    method Head() returns (head: nat)
      requires Valid()
      ensures head == |Messages()|
    {
      head := |files.closed| + |active|;
    }

    /** The library's read: some records from an offset on, at least one if there is any. */
    method ReadBatch(offset: nat, batching: nat -> nat) returns (batch: seq<Message>)
      requires Valid()
      ensures offset >= |Messages()| ==> batch == []
      ensures offset < |Messages()| ==> 0 < |batch| <= |Messages()| - offset
      ensures forall i :: 0 <= i < |batch| ==> offset + i < |Messages()| && batch[i] == Messages()[offset + i]
    {
      var messages := Messages();
      if offset >= |messages| {
        return [];
      }
      var wanted := batching(offset);
      var count := if wanted == 0 then 1 else if wanted > |messages| - offset then |messages| - offset else wanted;
      return messages[offset..offset + count];
    }

    /** Reads and decodes a window, however the library splits its batches. */
    method ReadFromCheckedWithLimit(from: nat, limit: Option<nat>, batching: nat -> nat)
      returns (r: Result<seq<(nat, E)>, LogError>)
      requires Valid()
      ensures r == Decoded(codec, Window(Messages(), from, limit))
    {
      hide Decoded;
      hide Window;
      hide Continue;
      hide Image;
      hide Messages;
      ghost var all := Messages();
      ghost var w := Window(all, from, limit);
      AllNumbered();
      WindowShape(all, from, limit);
      var start := if from == 0 then 0 else from - 1;
      var currentOffset := start;
      var events: seq<(nat, E)> := [];
      ContinueNone(Decoded(codec, w));
      assert w[0..] == w;
      DecodedNothing(codec, events);
      if limit == Some(0) {
        return Ok(events);
      }
      while true
        invariant currentOffset == start + |events| && |events| <= |w|
        invariant Decoded(codec, w) == Continue(events, Decoded(codec, w[|events|..]))
        invariant limit.Some? ==> |events| < limit.value
        decreases |w| - |events|
      {
        var batch := ReadBatch(currentOffset, batching);
        var count := 0;
        ghost var before := |events|;
        while count < |batch|
          invariant 0 <= count <= |batch|
          invariant |events| == before + count <= |w|
          invariant currentOffset == start + |events|
          invariant Decoded(codec, w) == Continue(events, Decoded(codec, w[|events|..]))
          invariant limit.Some? ==> |events| < limit.value
        {
          var msg := batch[count];
          assert msg == all[currentOffset];
          assert msg == w[|events|] && msg.offset == currentOffset;
          DecodedStep(codec, w, events);
          if msg.metadataSize > msg.size {
            return Err(InvalidMetadataLength);
          }
          match codec.decode(msg.payload) {
            case None => return Err(EventUndecodable);
            case Some(event) =>
              events := events + [(msg.offset + 1, event)];
              currentOffset := msg.offset + 1;
              count := count + 1;
          }
          if limit.Some? && |events| >= limit.value {
            assert w[|events|..] == [];
            DecodedNothing(codec, events);
            return Ok(events);
          }
        }
        if count == 0 {
          break;
        }
      }
      assert w[|events|..] == [];
      DecodedNothing(codec, events);
      return Ok(events);
    }

    method ReadFromChecked(from: nat, batching: nat -> nat) returns (r: Result<seq<(nat, E)>, LogError>)
      requires Valid()
      ensures r == Decoded(codec, Window(Messages(), from, None))
    {
      r := ReadFromCheckedWithLimit(from, None, batching);
    }

    lemma AllNumbered()
      requires Valid()
      ensures Numbered(Messages())
    {
    }
  }

  // ---------- opening ----------

  /** The records the index of these files points at. */
  function IndexedFrames(disk: Disk): seq<Frame>
  {
    if |disk.index| % 8 != 0 then []
    else match ParseIndex(disk.index, [], false)
      case Err(_) => []
      case Ok(positions) => FramesAt(disk.segment, positions)
  }

  function FreeSlots(disk: Disk): int { |disk.index| / 8 - |IndexedFrames(disk)| }

  /** The payloads of the whole records after the indexed ones. */
  function Unindexed<E>(codec: Codec<E>, base: nat, disk: Disk): seq<seq<byte>>
  {
    match Inspect(codec, base, disk)
    case Ok(Some(plan)) => plan.recovered
    case _ => []
  }

  /** The records of the log after a recovering open: the indexed ones, then the others framed anew. */
  function Reopened<E>(codec: Codec<E>, base: nat, disk: Disk): seq<Frame>
  {
    IndexedFrames(disk) + PlainRun(base + |IndexedFrames(disk)|, Unindexed(codec, base, disk))
  }

  predicate CanRestore(base: nat, frames: seq<Frame>, slots: int, payloads: seq<seq<byte>>)
    decreases |payloads|
  {
    payloads == []
    || (slots >= 0 && Fits(base, frames, slots) && |payloads[0]| <= MAX_MESSAGE_BYTES
        && CanRestore(base, frames + [Plain(base + |frames|, payloads[0])], slots - 1, payloads[1..]))
  }

  lemma CanRestoreStep(base: nat, frames: seq<Frame>, slots: nat, payloads: seq<seq<byte>>, i: nat)
    requires i < |payloads|
    ensures CanRestore(base, frames, slots, payloads[i..])
            <==> Fits(base, frames, slots) && |payloads[i]| <= MAX_MESSAGE_BYTES
                 && CanRestore(base, frames + [Plain(base + |frames|, payloads[i])], slots - 1, payloads[i + 1..])
  {
    assert payloads[i..][1..] == payloads[i + 1..];
  }

  lemma CanRestoreNothing(base: nat, frames: seq<Frame>, slots: int, payloads: seq<seq<byte>>)
    ensures CanRestore(base, frames, slots, payloads[|payloads|..])
  {
  }

  lemma RestoredNothing(base: nat, indexed: seq<Frame>)
    ensures forall payloads: seq<seq<byte>> :: indexed + PlainRun(base + |indexed|, payloads[..0]) == indexed
    ensures forall payloads: seq<seq<byte>> :: payloads[0..] == payloads
  {
  }

  lemma RestoredOne(base: nat, indexed: seq<Frame>, payloads: seq<seq<byte>>, i: nat)
    requires i < |payloads|
    ensures indexed + PlainRun(base + |indexed|, payloads[..i]) + [Plain(base + |indexed| + i, payloads[i])]
            == indexed + PlainRun(base + |indexed|, payloads[..i + 1])
  {
    assert payloads[..i + 1] == payloads[..i] + [payloads[i]];
    PlainRunAppend(base + |indexed|, payloads[..i], [payloads[i]]);
  }

  lemma CanRestoreNone(base: nat, frames: seq<Frame>, slots: int)
    ensures CanRestore(base, frames, slots, [])
  {
  }

  lemma LayoutFrames<E>(
    codec: Codec<E>, base: nat, disk: Disk, indexed: seq<Frame>, tail: seq<Frame>, torn: seq<byte>, slots: nat)
    requires Layout(codec, base, disk, indexed, tail, torn, slots)
    ensures |disk.index| % 8 == 0 && |disk.index| / 8 == |indexed| + slots
    ensures ParseIndex(disk.index, [], false) == Ok(Positions(MAGIC_BYTES, indexed))
    ensures IndexedFrames(disk) == indexed && FreeSlots(disk) == slots
    ensures Unindexed(codec, base, disk) == Payloads(tail)
    ensures Inspect(codec, base, disk) == Ok(None) ==> Payloads(tail) == []
    ensures Inspect(codec, base, disk) != Ok(None) ==>
              && Inspect(codec, base, disk).Ok? && Inspect(codec, base, disk).value.Some?
              && Inspect(codec, base, disk).value.value.recovered == Payloads(tail)
  {
    hide Inspect;
    hide Layout;
    hide TotalSize;
    hide ParseIndex;
    hide Payloads;
    hide Positions;
    hide FramesAt;
    hide Concat;
    hide AllValid;
    LayoutAccepted(codec, base, disk, indexed, tail, torn, slots);
    LayoutIndex(codec, base, disk, indexed, tail, torn, slots);
    LayoutIndexedEnd(codec, base, disk, indexed, tail, torn, slots);
    ReadBack(codec, disk.segment, MAGIC_BYTES, indexed);
    assert |Payloads(tail)| == |tail|;
    if Inspect(codec, base, disk) == Ok(None) {
      assert Unindexed(codec, base, disk) == [] && Payloads(tail) == [];
    }
  }

  lemma LayoutIndexedEnd<E>(
    codec: Codec<E>, base: nat, disk: Disk, indexed: seq<Frame>, tail: seq<Frame>, torn: seq<byte>, slots: nat)
    requires Layout(codec, base, disk, indexed, tail, torn, slots)
    ensures |disk.index| / 8 == |indexed| + slots
    ensures AllValid(indexed) && MAGIC_BYTES + TotalSize(indexed) <= |disk.segment|
    ensures disk.segment[MAGIC_BYTES..MAGIC_BYTES + TotalSize(indexed)] == Concat(codec, indexed)
    ensures disk.segment[..MAGIC_BYTES + TotalSize(indexed)] == Magic() + Concat(codec, indexed)
    ensures tail == [] && torn == [] ==> |disk.segment| == MAGIC_BYTES + TotalSize(indexed)
  {
    hide ReadFrame;
    hide Concat;
    hide Entries;
    hide TotalSize;
    LayoutWindows(disk.segment, Magic(), Concat(codec, indexed), Concat(codec, tail), torn);
    assert |Concat(codec, [])| == TotalSize([]) == 0 by { NoFrames(codec); }
  }

  lemma NoFrames<E>(codec: Codec<E>)
    ensures Concat(codec, []) == [] && TotalSize([]) == 0
  {
  }

  /** Truncating to the indexed end leaves files that hold the indexed records and nothing else. */
  lemma TruncatedImage<E>(
    codec: Codec<E>, base: nat, disk: Disk, indexed: seq<Frame>, tail: seq<Frame>, torn: seq<byte>, slots: nat)
    requires Layout(codec, base, disk, indexed, tail, torn, slots)
    ensures Records(codec, base, indexed) && Records(codec, base + |indexed|, tail)
    ensures Inspect(codec, base, disk) == Ok(None) ==> Image(codec, base, disk, indexed, slots)
    ensures Inspect(codec, base, disk) != Ok(None) ==>
              && Inspect(codec, base, disk).Ok? && Inspect(codec, base, disk).value.Some?
              && Inspect(codec, base, disk).value.value.indexedEnd <= |disk.segment|
              && Image(codec, base,
                   Disk(disk.segment[..Inspect(codec, base, disk).value.value.indexedEnd], disk.index), indexed, slots)
  {
    hide Inspect;
    hide ReadFrame;
    hide Concat;
    hide Entries;
    hide TotalSize;
    hide EmptySlots;
    LayoutAccepted(codec, base, disk, indexed, tail, torn, slots);
    LayoutIndexedEnd(codec, base, disk, indexed, tail, torn, slots);
    assert |disk.segment| == MAGIC_BYTES + TotalSize(indexed) ==>
             disk.segment[..MAGIC_BYTES + TotalSize(indexed)] == disk.segment;
  }

  /** After the re-append every record is indexed, numbered and decodable, and nothing is left to recover. */
  lemma RestoredRecords<E>(
    codec: Codec<E>, base: nat, indexed: seq<Frame>, tail: seq<Frame>, active: seq<Frame>, disk: Disk,
    slots: nat)
    requires Records(codec, base, indexed) && Records(codec, base + |indexed|, tail)
    requires active == indexed + PlainRun(base + |indexed|, Payloads(tail))
    requires Image(codec, base, disk, active, slots)
    ensures Records(codec, base, active)
    ensures Inspect(codec, base, disk) == Ok(None)
  {
    hide Inspect;
    hide Entries;
    hide TotalSize;
    hide EmptySlots;
    assert Concat(codec, active) + Concat(codec, []) + [] == Concat(codec, active);
    Associate(Magic(), Concat(codec, active), []);
    NothingReads(codec);
    forall i | |indexed| <= i < |active|
      ensures active[i].offset == base + i && active[i].payload == tail[i - |indexed|].payload
    {
    }
    assert Records(codec, base + |active|, []);
    LayoutAccepted(codec, base, disk, active, [], [], slots);
  }

  lemma ReadAll(messages: seq<Message>)
    ensures Window(messages, 1, None) == messages
  {
  }

  lemma OpenedReads<E>(codec: Codec<E>, closed: seq<Message>, base: nat, active: seq<Frame>)
    requires Records(codec, base, active)
    ensures Decoded(codec, closed + MessagesOf(active)).Ok? <==> Decoded(codec, closed).Ok?
  {
    hide Decoded;
    var all := closed + MessagesOf(active);
    DecodedExactly(codec, all);
    DecodedExactly(codec, closed);
    forall i | |closed| <= i < |all| ensures Readable(codec, all[i]) {
      assert all[i] == MessageOf(active[i - |closed|]);
      assert active[i - |closed|].Valid();
    }
    if Decoded(codec, all).Ok? {
      forall i | 0 <= i < |closed| ensures Readable(codec, closed[i]) { assert all[i] == closed[i]; }
    }
  }

  lemma WindowShape<T>(items: seq<T>, from: nat, limit: Option<nat>)
    ensures var start := if from == 0 then 0 else from - 1;
            var w := Window(items, from, limit);
            && (start >= |items| ==> w == [])
            && (start < |items| ==>
                 |w| == if limit.Some? && limit.value < |items| - start then limit.value else |items| - start)
            && forall k :: 0 <= k < |w| ==> w[k] == items[start + k]
  {
  }

  lemma DecodedNothing<E>(codec: Codec<E>, events: seq<(nat, E)>)
    ensures Continue(events, Decoded(codec, [])) == Ok(events)
  {
    assert events + [] == events;
  }

  /** What reading one more record does to a partly read window. */
  lemma DecodedStep<E>(codec: Codec<E>, w: seq<Message>, events: seq<(nat, E)>)
    requires |events| < |w|
    ensures var m := w[|events|];
            var r := Continue(events, Decoded(codec, w[|events|..]));
            if m.metadataSize > m.size then r == Err(InvalidMetadataLength)
            else if codec.decode(m.payload).None? then r == Err(EventUndecodable)
            else r == Continue(events + [(m.offset + 1, codec.decode(m.payload).value)],
                   Decoded(codec, w[|events| + 1..]))
  {
    var m, rest := w[|events|], Decoded(codec, w[|events| + 1..]);
    assert w[|events|..][1..] == w[|events| + 1..] && w[|events|..][0] == m;
    if m.metadataSize <= m.size && codec.decode(m.payload).Some? {
      ContinueOne(events, (m.offset + 1, codec.decode(m.payload).value), rest);
    }
  }

  lemma ContinueNone<E>(r: Result<seq<(nat, E)>, LogError>)
    ensures Continue([], r) == r
  {
    if r.Ok? {
      assert [] + r.value == r.value;
    }
  }

  /** The records of a log are the serializations of these events, numbered from zero. */
  ghost predicate Holds<E>(codec: Codec<E>, messages: seq<Message>, events: seq<E>)
  {
    && |messages| == |events|
    && Numbered(messages)
    && forall i :: 0 <= i < |messages| ==>
         messages[i].metadataSize <= messages[i].size && codec.decode(messages[i].payload) == Some(events[i])
  }

  /** The log kept in memory by tests and light nodes. */
  class InMemEventLog<E> {
    var log: seq<E>

    constructor ()
      ensures log == []
    {
      log := [];
    }

    method Append(event: E) returns (sequence: nat)
      modifies this
      ensures log == old(log) + [event] && sequence == |log|
    {
      log := log + [event];
      sequence := |log|;
    }

    method ReadFrom(from: nat) returns (events: seq<(nat, E)>)
      ensures events == Labelled(Window(log, from, None), from)
    {
      var start := if from == 0 then 0 else from - 1;
      var skipped := if start > |log| then [] else log[start..];
      events := seq(|skipped|, i requires 0 <= i < |skipped| => (from + i, skipped[i]));
    }

    method ReadFromBounded(from: nat, limit: nat) returns (events: seq<(nat, E)>)
      ensures events == Labelled(Window(log, from, Some(limit)), from)
    {
      var start := if from == 0 then 0 else from - 1;
      var skipped := if start > |log| then [] else log[start..];
      var taken := if limit < |skipped| then skipped[..limit] else skipped;
      events := seq(|taken|, i requires 0 <= i < |taken| => (from + i, taken[i]));
    }

    method Head() returns (head: nat)
      ensures head == |log|
    {
      head := |log|;
    }
  }

  function Labelled<E>(items: seq<E>, from: nat): (r: seq<(nat, E)>)
    ensures |r| == |items|
  {
    seq(|items|, i requires 0 <= i < |items| => (from + i, items[i]))
  }

  lemma WindowHolds<E>(codec: Codec<E>, messages: seq<Message>, events: seq<E>, from: nat, limit: Option<nat>)
    requires Holds(codec, messages, events)
    ensures var ws, es := Window(messages, from, limit), Window(events, from, limit);
            && |ws| == |es|
            && forall i :: 0 <= i < |ws| ==>
                 && Readable(codec, ws[i])
                 && codec.decode(ws[i].payload) == Some(es[i])
                 && ws[i].offset == (if from == 0 then 0 else from - 1) + i
  {
  }

  /**
   * The durable log and the in-memory log answer every read alike exactly when the read starts at
   * sequence 1 or later, or returns nothing; a nonempty read from 0 is labelled one higher on disk.
   */
  lemma ReadsAgree<E>(codec: Codec<E>, messages: seq<Message>, events: seq<E>, from: nat, limit: Option<nat>)
    requires Holds(codec, messages, events)
    ensures Decoded(codec, Window(messages, from, limit)).Ok?
    ensures Decoded(codec, Window(messages, from, limit)) == Ok(Labelled(Window(events, from, limit), from))
            <==> from >= 1 || Window(events, from, limit) == []
  {
    var ws, es := Window(messages, from, limit), Window(events, from, limit);
    WindowHolds(codec, messages, events, from, limit);
    DecodedExactly(codec, ws);
    var r := Decoded(codec, ws).value;
    if from >= 1 {
      forall i | 0 <= i < |ws| ensures r[i] == Labelled(es, from)[i] {
        assert Some(r[i].1) == codec.decode(ws[i].payload);
      }
      assert r == Labelled(es, from);
    } else if es != [] {
      assert r[0].0 == 1 && Labelled(es, 0)[0].0 == 0;
    }
  }

  /** The frames an index points at. */
  function FramesAt(segment: seq<byte>, positions: seq<nat>): seq<Frame>
  {
    if positions == [] then []
    else [FrameAt(segment, positions[0])] + FramesAt(segment, positions[1..])
  }

  /** The fields of the bytes at a position that is known to hold a frame. */
  function FrameAt(segment: seq<byte>, position: nat): Frame
  {
    if position + HEADER_BYTES > |segment| then Frame(0, [], [], [])
    else
      var header := segment[position..position + HEADER_BYTES];
      var size := FromLittleEndian(header[8..12]);
      var metadata := FromLittleEndian(header[18..20]);
      var start := position + HEADER_BYTES;
      if start + size > |segment| || metadata > size then Frame(0, [], [], [])
      else Frame(FromLittleEndian(header[0..8]), header[16..18],
                 segment[start..start + metadata], segment[start + metadata..start + size])
  }

  lemma FrameAtReads<E>(codec: Codec<E>, segment: seq<byte>, position: nat, f: Frame)
    requires f.Valid() && position + f.Size() <= |segment|
    requires segment[position..position + f.Size()] == Encode(codec, f)
    ensures FrameAt(segment, position) == f
  {
    hide Encode;
    hide FromLittleEndian;
    var s := segment[position..position + f.Size()];
    assert s[..HEADER_BYTES] == segment[position..position + HEADER_BYTES];
    HeaderFields(codec, f, s);
    EncodedBody(codec, f);
    var start := position + HEADER_BYTES;
    assert segment[start..start + |f.Body()|] == s[HEADER_BYTES..] == f.Body();
    SplitWindow(segment, start, f.metadata, f.payload);
  }

  lemma {:induction false} ReadBack<E>(codec: Codec<E>, segment: seq<byte>, at: nat, frames: seq<Frame>)
    requires AllValid(frames) && at + TotalSize(frames) <= |segment|
    requires segment[at..at + TotalSize(frames)] == Concat(codec, frames)
    ensures FramesAt(segment, Positions(at, frames)) == frames
    decreases |frames|
  {
    hide Encode;
    hide FrameAt;
    if frames != [] {
      var f := frames[0];
      SplitWindow(segment, at, Encode(codec, f), Concat(codec, frames[1..]));
      FrameAtReads(codec, segment, at, f);
      ReadBack(codec, segment, at + f.Size(), frames[1..]);
      assert Positions(at, frames)[1..] == Positions(at + f.Size(), frames[1..]);
    }
  }

  lemma AppendedIndex(start: nat, index: seq<byte>, frames: seq<Frame>, slots: nat, frame: Frame)
    requires index == Entries(0, start, frames) + EmptySlots(slots) && slots > 0
    ensures 8 * (|frames| + 1) <= |index|
    ensures PutEntry(index, |frames|, start + TotalSize(frames))
            == Entries(0, start, frames + [frame]) + EmptySlots(slots - 1)
  {
    hide *;
    assert |index| == 8 * |frames| + 8 * slots;
    EntriesSnoc(0, start, frames, frame);
    PutEntryFillsSlot(Entries(0, start, frames), slots, |frames|, start + TotalSize(frames));
  }

  lemma AppendedSegment<E>(codec: Codec<E>, segment: seq<byte>, frames: seq<Frame>, frame: Frame)
    requires AllValid(frames) && frame.Valid() && segment == Magic() + Concat(codec, frames)
    ensures AllValid(frames + [frame])
    ensures segment + Encode(codec, frame) == Magic() + Concat(codec, frames + [frame])
  {
    hide Encode;
    hide Concat;
    hide TotalSize;
    ConcatAppend(codec, frames, [frame]);
    SingleConcat(codec, frame);
    Associate(Magic(), Concat(codec, frames), Encode(codec, frame));
  }

  lemma AppendedNumbers(base: nat, frames: seq<Frame>, slots: nat, frame: Frame)
    requires forall i :: 0 <= i < |frames| ==> frames[i].offset == base + i
    requires frame.offset == base + |frames| && Fits(base, frames, slots)
    ensures forall i :: 0 <= i < |frames + [frame]| ==> (frames + [frame])[i].offset == base + i
    ensures Indexable(frames + [frame])
  {
    hide TotalSize;
    assert (frames + [frame])[..|frames|] == frames;
  }

  lemma AppendedImage<E>(codec: Codec<E>, base: nat, disk: Disk, frames: seq<Frame>, slots: nat, frame: Frame)
    requires Image(codec, base, disk, frames, slots)
    requires frame.Valid() && frame.offset == base + |frames| && Fits(base, frames, slots)
    ensures 8 * (|frames| + 1) <= |disk.index|
    ensures |disk.segment| == MAGIC_BYTES + TotalSize(frames)
    ensures Image(codec, base,
                  Disk(disk.segment + Encode(codec, frame), PutEntry(disk.index, |frames|, |disk.segment|)),
                  frames + [frame], slots - 1)
  {
    hide Encode;
    hide TotalSize;
    hide Entries;
    hide PutEntry;
    hide EmptySlots;
    hide Concat;
    hide AllValid;
    hide Indexable;
    hide IndexEntry;
    hide Magic;
    AppendedSegment(codec, disk.segment, frames, frame);
    AppendedIndex(MAGIC_BYTES, disk.index, frames, slots, frame);
    AppendedNumbers(base, frames, slots, frame);
    assert |disk.segment| == MAGIC_BYTES + TotalSize(frames);
  }

  // ---------- opening the files a crash left behind ----------

  lemma {:induction false} RoomRestores(base: nat, slots: nat, indexed: seq<seq<byte>>, payloads: seq<seq<byte>>)
    requires Room(base, 8 * (|indexed| + slots), indexed + payloads)
    requires forall i :: 0 <= i < |payloads| ==> |payloads[i]| <= MAX_MESSAGE_BYTES
    ensures CanRestore(base, PlainRun(base, indexed), slots, payloads)
    decreases |payloads|
  {
    hide TotalSize;
    if payloads != [] {
      var all, run := PlainRun(base, indexed + payloads), PlainRun(base, indexed);
      assert all[..|run|] == run;
      TotalSizePrefix(all, |run|);
      assert indexed + payloads == indexed + [payloads[0]] + payloads[1..];
      assert PlainRun(base, indexed + [payloads[0]]) == run + [Plain(base + |indexed|, payloads[0])];
      RoomRestores(base, slots - 1, indexed + [payloads[0]], payloads[1..]);
    }
  }

  /**
   * Whatever byte the process stopped at, the files it left are restorable, and opening them gives
   * the log the stopped state stands for: every indexed record, then every wholly written one.
   */
  lemma OpenAfterCrash<E>(codec: Codec<E>, base: nat, s: System)
    requires Inv(codec, base, s) && !s.up
    ensures Inspect(codec, base, s.disk).Ok?
    ensures CanRestore(base, IndexedFrames(s.disk), FreeSlots(s.disk), Unindexed(codec, base, s.disk))
    ensures Reopened(codec, base, s.disk) == PlainRun(base, Contents(base, s))
  {
    hide Inspect;
    hide Layout;
    hide IndexedFrames;
    hide FreeSlots;
    hide Unindexed;
    hide CanRestore;
    hide Inv;
    hide Room;
    hide Payloads;
    hide PlainRun;
    hide WholeFrames;
    hide TotalSize;
    hide Positions;
    var n := WholeFrames(Pending(base, s), s.written);
    var kept := s.queue[..n];
    var torn := ImageLaidOut(codec, base, s);
    var slots := |s.disk.index| / 8 - |s.indexed|;
    var tail := PlainRun(base + |s.indexed|, kept);
    CrashRoom(codec, base, s);
    LayoutFrames(codec, base, s.disk, PlainRun(base, s.indexed), tail, torn, slots);
    LayoutAccepted(codec, base, s.disk, PlainRun(base, s.indexed), tail, torn, slots);
    PayloadsOfRun(base + |s.indexed|, kept);
    PlainRunAppend(base, s.indexed, kept);
    RoomRestores(base, slots, s.indexed, kept);
  }

  lemma PayloadsOfRun(offset: nat, payloads: seq<seq<byte>>)
    ensures Payloads(PlainRun(offset, payloads)) == payloads
  {
  }

  lemma CrashRoom<E>(codec: Codec<E>, base: nat, s: System)
    requires Inv(codec, base, s)
    ensures var n := WholeFrames(Pending(base, s), s.written);
            var slots := |s.disk.index| / 8 - |s.indexed|;
            && slots >= 0
            && Room(base, 8 * (|s.indexed| + slots), s.indexed + s.queue[..n])
            && forall i :: 0 <= i < n ==> |s.queue[i]| <= MAX_MESSAGE_BYTES
  {
    hide Concat;
    hide Entries;
    hide TotalSize;
    var n := WholeFrames(Pending(base, s), s.written);
    PrefixKeepsRoom(codec, base, |s.disk.index|, s.indexed, s.queue, n);
    SplitAcceptable(codec, s.indexed, s.queue);
    forall i | 0 <= i < n ensures |s.queue[i]| <= MAX_MESSAGE_BYTES { assert Acceptable(codec, s.queue[i]); }
  }

  /**
   * A log of serialized events, with any earlier segments, crashed at any byte and opened again, answers
   * every read from sequence 1 on exactly as an in-memory log holding the surviving events.
   */
  lemma CrashedLogReadsAsList<E(!new)>(
    codec: Codec<E>, closed: seq<Message>, earlier: seq<E>, s: System, events: seq<E>, from: nat, limit: Option<nat>)
    requires RoundTrips(codec)
    requires Holds(codec, closed, earlier)
    requires Inv(codec, |closed|, s) && !s.up
    requires |events| == |Contents(|closed|, s)|
    requires forall i :: 0 <= i < |events| ==> Contents(|closed|, s)[i] == codec.encode(events[i])
    requires from >= 1
    ensures Decoded(codec, Window(closed + MessagesOf(Reopened(codec, |closed|, s.disk)), from, limit))
            == Ok(Labelled(Window(earlier + events, from, limit), from))
  {
    hide Inv;
    hide Reopened;
    hide Decoded;
    hide Window;
    var base := |closed|;
    OpenAfterCrash(codec, base, s);
    var messages := closed + MessagesOf(PlainRun(base, Contents(base, s)));
    forall i | 0 <= i < |messages|
      ensures messages[i].offset == i && messages[i].metadataSize <= messages[i].size
      ensures codec.decode(messages[i].payload) == Some((earlier + events)[i])
    {
      if i >= base {
        assert messages[i] == MessageOf(Plain(i, codec.encode(events[i - base])));
      }
    }
    ReadsAgree(codec, messages, earlier + events, from, limit);
  }
}
