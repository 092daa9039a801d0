/**
 * Startup inspection of the active segment: the index is parsed, the indexed records are checked,
 * and the physical bytes after them are split into whole frames and a torn remainder.
 */
module Inspection {
  import opened Bytes
  import opened Frames

  datatype LogError =
    | InvalidIndexLength
    | EntryAfterEmptySlot
    | TooManyEntries
    | NonContiguousIndex
    | MissingHeader
    | InvalidMagic
    | EntryPointsElsewhere
    | CommittedRecordDamaged
    | CommittedOffsetMismatch
    | CommittedRecordUndecodable
    | UnindexedOffsetMismatch
    | UnindexedRecordUndecodable
    | UncommittedTailDetected
    | RestoreFailed
    | InvalidMetadataLength
    | EventUndecodable

  /** The two files of the active segment. */
  datatype Disk = Disk(segment: seq<byte>, index: seq<byte>)

  datatype Plan = Plan(indexedEnd: nat, physicalEnd: nat, nextOffset: nat, recovered: seq<seq<byte>>)

  datatype Tail = Tail(payloads: seq<seq<byte>>, stop: nat)

  // ---------- specification of the three passes ----------

  function ParseIndex(index: seq<byte>, entries: seq<nat>, reachedEmpty: bool): Result<seq<nat>, LogError>
    requires |index| % 8 == 0
  {
    if index == [] then Ok(entries)
    else
      var relative := FromLittleEndian(index[0..4]);
      var position := FromLittleEndian(index[4..8]);
      if relative == 0 && position == 0 then ParseIndex(index[8..], entries, true)
      else if reachedEmpty then Err(EntryAfterEmptySlot)
      else if |entries| >= 0x1_0000_0000 then Err(TooManyEntries)
      else if relative != |entries| then Err(NonContiguousIndex)
      else ParseIndex(index[8..], entries + [position], false)
  }

  function CheckCommitted<E>(codec: Codec<E>, segment: seq<byte>, positions: seq<nat>, at: nat, offset: nat)
    : (r: Result<nat, LogError>)
    requires at <= |segment|
    ensures r.Ok? ==> at <= r.value <= |segment|
  {
    if positions == [] then Ok(at)
    else if positions[0] != at then Err(EntryPointsElsewhere)
    else match ReadFrame(codec, segment, at)
      case Incomplete => Err(CommittedRecordDamaged)
      case Complete(found, payload, end) =>
        if found != offset then Err(CommittedOffsetMismatch)
        else if codec.decode(payload).None? then Err(CommittedRecordUndecodable)
        else CheckCommitted(codec, segment, positions[1..], end, offset + 1)
  }

  function ScanTail<E>(codec: Codec<E>, segment: seq<byte>, at: nat, offset: nat): (r: Result<Tail, LogError>)
    requires at <= |segment|
    ensures r.Ok? ==> at <= r.value.stop <= |segment|
    decreases |segment| - at
  {
    if at == |segment| then Ok(Tail([], at))
    else match ReadFrame(codec, segment, at)
      case Incomplete => Ok(Tail([], at))
      case Complete(found, payload, end) =>
        if found != offset then Err(UnindexedOffsetMismatch)
        else if codec.decode(payload).None? then Err(UnindexedRecordUndecodable)
        else match ScanTail(codec, segment, end, offset + 1)
          case Err(e) => Err(e)
          case Ok(t) => Ok(Tail([payload] + t.payloads, t.stop))
  }

  function Inspect<E>(codec: Codec<E>, base: nat, disk: Disk): Result<Option<Plan>, LogError>
  {
    if |disk.index| % 8 != 0 then Err(InvalidIndexLength)
    else match ParseIndex(disk.index, [], false)
      case Err(e) => Err(e)
      case Ok(positions) =>
        if |disk.segment| < MAGIC_BYTES then Err(MissingHeader)
        else if disk.segment[..MAGIC_BYTES] != Magic() then Err(InvalidMagic)
        else match CheckCommitted(codec, disk.segment, positions, MAGIC_BYTES, base)
          case Err(e) => Err(e)
          case Ok(indexedEnd) =>
            match ScanTail(codec, disk.segment, indexedEnd, base + |positions|)
            case Err(e) => Err(e)
            case Ok(tail) =>
              if tail.stop == |disk.segment| && tail.payloads == [] then Ok(None)
              else Ok(Some(Plan(indexedEnd, |disk.segment|, base + |positions|, tail.payloads)))
  }

  // ---------- the inspection itself ----------

  method ScanIndex(index: seq<byte>) returns (r: Result<seq<nat>, LogError>)
    requires |index| % 8 == 0
    ensures r == ParseIndex(index, [], false)
  {
    var entries: seq<nat> := [];
    var reachedEmpty := false;
    var at := 0;
    while at < |index|
      invariant 0 <= at <= |index| && at % 8 == 0
      invariant ParseIndex(index, [], false) == ParseIndex(index[at..], entries, reachedEmpty)
    {
      ghost var rest := index[at..];
      assert rest[0..4] == index[at..at + 4] && rest[4..8] == index[at + 4..at + 8];
      assert rest[8..] == index[at + 8..];
      var relative := FromLittleEndian(index[at..at + 4]);
      var position := FromLittleEndian(index[at + 4..at + 8]);
      at := at + 8;
      if relative == 0 && position == 0 {
        reachedEmpty := true;
        continue;
      }
      if reachedEmpty {
        return Err(EntryAfterEmptySlot);
      }
      if |entries| >= 0x1_0000_0000 {
        return Err(TooManyEntries);
      }
      if relative != |entries| {
        return Err(NonContiguousIndex);
      }
      entries := entries + [position];
    }
    return Ok(entries);
  }

  method CheckIndexedRecords<E>(codec: Codec<E>, segment: seq<byte>, positions: seq<nat>, base: nat)
    returns (r: Result<nat, LogError>)
    requires MAGIC_BYTES <= |segment|
    ensures r == CheckCommitted(codec, segment, positions, MAGIC_BYTES, base)
  {
    hide ReadFrame;
    var indexedEnd: nat := MAGIC_BYTES;
    for i := 0 to |positions|
      invariant indexedEnd <= |segment|
      invariant CheckCommitted(codec, segment, positions, MAGIC_BYTES, base)
             == CheckCommitted(codec, segment, positions[i..], indexedEnd, base + i)
    {
      assert positions[i..][1..] == positions[i + 1..];
      if positions[i] != indexedEnd {
        return Err(EntryPointsElsewhere);
      }
      match ReadFrame(codec, segment, indexedEnd) {
        case Incomplete => return Err(CommittedRecordDamaged);
        case Complete(offset, payload, end) =>
          if offset != base + i {
            return Err(CommittedOffsetMismatch);
          }
          if codec.decode(payload).None? {
            return Err(CommittedRecordUndecodable);
          }
          indexedEnd := end;
      }
    }
    return Ok(indexedEnd);
  }

  method CollectUnindexed<E>(codec: Codec<E>, segment: seq<byte>, indexedEnd: nat, nextOffset: nat)
    returns (r: Result<Tail, LogError>)
    requires indexedEnd <= |segment|
    ensures r == ScanTail(codec, segment, indexedEnd, nextOffset)
  {
    hide ReadFrame;
    var position := indexedEnd;
    var recovered: seq<seq<byte>> := [];
    PrependNone(ScanTail(codec, segment, position, nextOffset));
    while position < |segment|
      invariant indexedEnd <= position <= |segment|
      invariant ScanTail(codec, segment, indexedEnd, nextOffset)
             == Prepend(recovered, ScanTail(codec, segment, position, nextOffset + |recovered|))
      decreases |segment| - position
    {
      match ReadFrame(codec, segment, position) {
        case Incomplete => break;
        case Complete(offset, payload, end) =>
          if offset != nextOffset + |recovered| {
            return Err(UnindexedOffsetMismatch);
          }
          if codec.decode(payload).None? {
            return Err(UnindexedRecordUndecodable);
          }
          PrependOne(recovered, payload, ScanTail(codec, segment, end, nextOffset + |recovered| + 1));
          recovered := recovered + [payload];
          position := end;
      }
    }
    assert recovered + [] == recovered;
    return Ok(Tail(recovered, position));
  }

  method InspectActiveTail<E>(codec: Codec<E>, base: nat, disk: Disk) returns (r: Result<Option<Plan>, LogError>)
    ensures r == Inspect(codec, base, disk)
  {
    hide ParseIndex;
    hide CheckCommitted;
    hide ScanTail;
    if |disk.index| % 8 != 0 {
      return Err(InvalidIndexLength);
    }
    var parsed := ScanIndex(disk.index);
    if parsed.Err? {
      return Err(parsed.error);
    }
    var positions := parsed.value;
    var physicalEnd := |disk.segment|;
    if physicalEnd < MAGIC_BYTES {
      return Err(MissingHeader);
    }
    if disk.segment[..MAGIC_BYTES] != Magic() {
      return Err(InvalidMagic);
    }
    var checked := CheckIndexedRecords(codec, disk.segment, positions, base);
    if checked.Err? {
      return Err(checked.error);
    }
    var indexedEnd := checked.value;
    var nextOffset := base + |positions|;
    var collected := CollectUnindexed(codec, disk.segment, indexedEnd, nextOffset);
    if collected.Err? {
      return Err(collected.error);
    }
    var tail := collected.value;
    if tail.stop == physicalEnd && tail.payloads == [] {
      return Ok(None);
    }
    return Ok(Some(Plan(indexedEnd, physicalEnd, nextOffset, tail.payloads)));
  }

  ghost function Prepend(front: seq<seq<byte>>, r: Result<Tail, LogError>): Result<Tail, LogError>
  {
    match r
    case Err(e) => Err(e)
    case Ok(t) => Ok(Tail(front + t.payloads, t.stop))
  }

  lemma PrependNone(r: Result<Tail, LogError>)
    ensures Prepend([], r) == r
  {
    if r.Ok? {
      assert [] + r.value.payloads == r.value.payloads;
    }
  }

  lemma PrependOne(front: seq<seq<byte>>, p: seq<byte>, r: Result<Tail, LogError>)
    ensures Prepend(front, Prepend([p], r)) == Prepend(front + [p], r)
  {
    if r.Ok? {
      assert front + ([p] + r.value.payloads) == front + [p] + r.value.payloads;
    }
  }

  // ---------- what an accepted pair of files looks like ----------

  function IndexEntry(relative: nat, position: nat): (s: seq<byte>)
    ensures |s| == 8
  {
    LittleEndian(relative, 4) + LittleEndian(position, 4)
  }

  /** The entries of consecutive frames: numbers from `from`, positions adding up the frame sizes. */
  function Entries(from: nat, position: nat, frames: seq<Frame>): (s: seq<byte>)
    ensures |s| == 8 * |frames|
    decreases |frames|
  {
    if frames == [] then []
    else IndexEntry(from, position) + Entries(from + 1, position + frames[0].Size(), frames[1..])
  }

  function EmptySlots(count: nat): (s: seq<byte>)
    ensures |s| == 8 * count
  {
    seq(8 * count, _ => 0)
  }

  /** Whole, decodable records with consecutive offsets. */
  predicate Records<E>(codec: Codec<E>, offset: nat, frames: seq<Frame>)
  {
    && AllValid(frames)
    && (forall i :: 0 <= i < |frames| ==> frames[i].offset == offset + i)
    && (forall i :: 0 <= i < |frames| ==> codec.decode(frames[i].payload).Some?)
  }

  function Payloads(frames: seq<Frame>): (ps: seq<seq<byte>>)
    ensures |ps| == |frames|
  {
    seq(|frames|, i requires 0 <= i < |frames| => frames[i].payload)
  }

  /**
   * The files hold indexed records, then whole records the index does not mention, then bytes that
   * do not read as a frame; the index holds exactly the entries of the indexed records.
   */
  predicate Layout<E>(
    codec: Codec<E>, base: nat, disk: Disk, indexed: seq<Frame>, tail: seq<Frame>, torn: seq<byte>, slots: nat)
  {
    && Records(codec, base, indexed)
    && Records(codec, base + |indexed|, tail)
    && |indexed| <= 0x1_0000_0000
    && (indexed == [] || MAGIC_BYTES + TotalSize(indexed[..|indexed| - 1]) < 0x1_0000_0000)
    && disk.segment == Magic() + Concat(codec, indexed) + Concat(codec, tail) + torn
    && ReadFrame(codec, torn, 0) == Incomplete
    && disk.index == Entries(0, MAGIC_BYTES, indexed) + EmptySlots(slots)
  }

  // ---------- layout implies acceptance ----------

  lemma {:induction false} EmptySlotsParse(slots: nat, entries: seq<nat>, reachedEmpty: bool)
    ensures ParseIndex(EmptySlots(slots), entries, reachedEmpty) == Ok(entries)
    decreases slots
  {
    if slots > 0 {
      var s := EmptySlots(slots);
      assert s[8..] == EmptySlots(slots - 1);
      LittleEndianZero(4);
      Widths();
      LittleEndianDecodes(0, 4);
      assert s[0..4] == LittleEndian(0, 4) == s[4..8];
      EmptySlotsParse(slots - 1, entries, true);
    }
  }

  /** The byte positions of consecutive frames. */
  function Positions(position: nat, frames: seq<Frame>): (ps: seq<nat>)
    ensures |ps| == |frames|
    decreases |frames|
  {
    if frames == [] then [] else [position] + Positions(position + frames[0].Size(), frames[1..])
  }

  lemma EntryParses(entries: seq<nat>, position: nat, rest: seq<byte>)
    requires 0 < position < 0x1_0000_0000 && |entries| < 0x1_0000_0000
    requires |rest| % 8 == 0
    ensures |IndexEntry(|entries|, position) + rest| % 8 == 0
    ensures ParseIndex(IndexEntry(|entries|, position) + rest, entries, false)
            == ParseIndex(rest, entries + [position], false)
  {
    hide LittleEndian;
    hide FromLittleEndian;
    var s := IndexEntry(|entries|, position) + rest;
    assert s[0..4] == LittleEndian(|entries|, 4) && s[4..8] == LittleEndian(position, 4) && s[8..] == rest;
    Widths();
    LittleEndianDecodes(|entries|, 4);
    LittleEndianDecodes(position, 4);
  }

  lemma WholeSlots(n: nat, rest: nat)
    requires rest % 8 == 0
    ensures (8 * n + rest) % 8 == 0
  {
  }

  lemma {:induction false} EntriesParse(entries: seq<nat>, position: nat, frames: seq<Frame>, rest: seq<byte>)
    requires position > 0 && |rest| % 8 == 0
    requires |entries| + |frames| <= 0x1_0000_0000
    requires frames == [] || position + TotalSize(frames[..|frames| - 1]) < 0x1_0000_0000
    ensures |Entries(|entries|, position, frames) + rest| % 8 == 0
    ensures ParseIndex(Entries(|entries|, position, frames) + rest, entries, false)
            == ParseIndex(rest, entries + Positions(position, frames), false)
    decreases |frames|
  {
    hide ParseIndex;
    hide IndexEntry;
    hide TotalSize;
    hide Entries;
    hide Positions;
    WholeSlots(|frames|, |rest|);
    if frames == [] {
      NoEntries(|entries|, position);
      assert [] + rest == rest && entries + [] == entries;
    } else {
      var next := position + frames[0].Size();
      OneMoreEntry(|entries|, position, frames);
      TotalSizeFront(frames);
      WholeSlots(|frames| - 1, |rest|);
      assert |frames| > 1 ==> frames[1..][..|frames[1..]| - 1] == frames[1..][..|frames| - 2];
      EntriesParse(entries + [position], next, frames[1..], rest);
      EntryParses(entries, position, Entries(|entries| + 1, next, frames[1..]) + rest);
      Associate(IndexEntry(|entries|, position), Entries(|entries| + 1, next, frames[1..]), rest);
      assert entries + [position] + Positions(next, frames[1..]) ==
               entries + ([position] + Positions(next, frames[1..]));
    }
  }

  lemma NoEntries(from: nat, position: nat)
    ensures Entries(from, position, []) == [] && Positions(position, []) == []
  {
  }

  lemma OneMoreEntry(from: nat, position: nat, frames: seq<Frame>)
    requires frames != []
    ensures Entries(from, position, frames)
            == IndexEntry(from, position) + Entries(from + 1, position + frames[0].Size(), frames[1..])
    ensures Positions(position, frames) == [position] + Positions(position + frames[0].Size(), frames[1..])
  {
  }

  /** The last frame only counts for the positions after it. */
  lemma TotalSizeFront(frames: seq<Frame>)
    requires frames != []
    ensures |frames| == 1 ==> TotalSize(frames[..|frames| - 1]) == 0
    ensures |frames| > 1 ==>
              TotalSize(frames[..|frames| - 1]) == frames[0].Size() + TotalSize(frames[1..][..|frames| - 2])
  {
    if |frames| > 1 {
      assert frames[..|frames| - 1][1..] == frames[1..][..|frames| - 2];
    }
  }

  lemma {:induction false} RecordsCheck<E>(
    codec: Codec<E>, segment: seq<byte>, at: nat, offset: nat, frames: seq<Frame>)
    requires Records(codec, offset, frames)
    requires at + TotalSize(frames) <= |segment|
    requires segment[at..at + TotalSize(frames)] == Concat(codec, frames)
    ensures CheckCommitted(codec, segment, Positions(at, frames), at, offset) == Ok(at + TotalSize(frames))
    decreases |frames|
  {
    hide ReadFrame;
    hide Encode;
    if frames != [] {
      var f := frames[0];
      SplitWindow(segment, at, Encode(codec, f), Concat(codec, frames[1..]));
      EncodedFrameReads(codec, segment, at, f);
      TailRecords(codec, offset, frames);
      RecordsCheck(codec, segment, at + f.Size(), offset + 1, frames[1..]);
    }
  }

  lemma TailRecords<E>(codec: Codec<E>, offset: nat, frames: seq<Frame>)
    requires frames != [] && Records(codec, offset, frames)
    ensures Records(codec, offset + 1, frames[1..])
    ensures Payloads(frames) == [frames[0].payload] + Payloads(frames[1..])
  {
  }

  lemma {:induction false} RecordsScan<E>(codec: Codec<E>, segment: seq<byte>, at: nat, offset: nat, frames: seq<Frame>)
    requires Records(codec, offset, frames)
    requires at + TotalSize(frames) <= |segment|
    requires segment[at..at + TotalSize(frames)] == Concat(codec, frames)
    requires ReadFrame(codec, segment, at + TotalSize(frames)) == Incomplete
    ensures ScanTail(codec, segment, at, offset) == Ok(Tail(Payloads(frames), at + TotalSize(frames)))
    decreases |frames|
  {
    hide ReadFrame;
    hide Encode;
    if frames != [] {
      var f := frames[0];
      SplitWindow(segment, at, Encode(codec, f), Concat(codec, frames[1..]));
      EncodedFrameReads(codec, segment, at, f);
      TailRecords(codec, offset, frames);
      RecordsScan(codec, segment, at + f.Size(), offset + 1, frames[1..]);
    }
  }

  /** The windows of a laid-out segment. */
  lemma LayoutWindows(segment: seq<byte>, magic: seq<byte>, a: seq<byte>, b: seq<byte>, torn: seq<byte>)
    requires segment == magic + a + b + torn
    ensures segment[..|magic|] == magic
    ensures segment[|magic|..|magic| + |a|] == a
    ensures segment[|magic| + |a|..|magic| + |a| + |b|] == b
    ensures segment[..|magic| + |a| + |b|] + torn == segment
  {
  }

  lemma JoinWindows(segment: seq<byte>, magic: seq<byte>, a: seq<byte>, b: seq<byte>)
    requires |magic| + |a| + |b| <= |segment|
    requires segment[..|magic|] == magic
    requires segment[|magic|..|magic| + |a|] == a
    requires segment[|magic| + |a|..|magic| + |a| + |b|] == b
    ensures segment == magic + a + b + segment[|magic| + |a| + |b|..]
    ensures segment == segment[..|magic| + |a| + |b|] + segment[|magic| + |a| + |b|..]
  {
    var i, j := |magic| + |a|, |magic| + |a| + |b|;
    assert segment[..i] == segment[..|magic|] + segment[|magic|..i];
    assert segment[..j] == segment[..i] + segment[i..j];
    assert segment == segment[..j] + segment[j..];
  }

  lemma LayoutIndex<E>(
    codec: Codec<E>, base: nat, disk: Disk, indexed: seq<Frame>, tail: seq<Frame>, torn: seq<byte>, slots: nat)
    requires Layout(codec, base, disk, indexed, tail, torn, slots)
    ensures |disk.index| % 8 == 0
    ensures ParseIndex(disk.index, [], false) == Ok(Positions(MAGIC_BYTES, indexed))
  {
    hide ReadFrame;
    hide Concat;
    EntriesParse([], MAGIC_BYTES, indexed, EmptySlots(slots));
    EmptySlotsParse(slots, [] + Positions(MAGIC_BYTES, indexed), false);
    assert [] + Positions(MAGIC_BYTES, indexed) == Positions(MAGIC_BYTES, indexed);
  }

  lemma LayoutSegment<E>(
    codec: Codec<E>, base: nat, disk: Disk, indexed: seq<Frame>, tail: seq<Frame>, torn: seq<byte>, slots: nat)
    requires Layout(codec, base, disk, indexed, tail, torn, slots)
    ensures |disk.segment| == MAGIC_BYTES + TotalSize(indexed) + TotalSize(tail) + |torn|
    ensures disk.segment[..MAGIC_BYTES] == Magic()
    ensures CheckCommitted(codec, disk.segment, Positions(MAGIC_BYTES, indexed), MAGIC_BYTES, base)
            == Ok(MAGIC_BYTES + TotalSize(indexed))
    ensures ScanTail(codec, disk.segment, MAGIC_BYTES + TotalSize(indexed), base + |indexed|)
            == Ok(Tail(Payloads(tail), MAGIC_BYTES + TotalSize(indexed) + TotalSize(tail)))
  {
    hide ReadFrame;
    hide Entries;
    hide Concat;
    hide CheckCommitted;
    hide ScanTail;
    LayoutWindows(disk.segment, Magic(), Concat(codec, indexed), Concat(codec, tail), torn);
    var indexedEnd := MAGIC_BYTES + TotalSize(indexed);
    RecordsCheck(codec, disk.segment, MAGIC_BYTES, base, indexed);
    var stop := indexedEnd + TotalSize(tail);
    assert |disk.segment[..stop]| == stop;
    ReadFrameShift(codec, disk.segment[..stop], torn);
    RecordsScan(codec, disk.segment, indexedEnd, base + |indexed|, tail);
  }

  /** Every laid-out pair of files is accepted, and its unindexed whole records are all planned for recovery. */
  lemma LayoutAccepted<E>(
    codec: Codec<E>, base: nat, disk: Disk, indexed: seq<Frame>, tail: seq<Frame>, torn: seq<byte>, slots: nat)
    requires Layout(codec, base, disk, indexed, tail, torn, slots)
    ensures Inspect(codec, base, disk) ==
            if tail == [] && torn == [] then Ok(None)
            else Ok(Some(Plan(MAGIC_BYTES + TotalSize(indexed), |disk.segment|, base + |indexed|, Payloads(tail))))
  {
    hide ParseIndex;
    hide CheckCommitted;
    hide ScanTail;
    hide Payloads;
    hide Positions;
    hide TotalSize;
    hide ReadFrame;
    hide Layout;
    LayoutIndex(codec, base, disk, indexed, tail, torn, slots);
    LayoutSegment(codec, base, disk, indexed, tail, torn, slots);
    var positions := Positions(MAGIC_BYTES, indexed);
    var scanned := Tail(Payloads(tail), MAGIC_BYTES + TotalSize(indexed) + TotalSize(tail));
    assert |positions| == |indexed| && |scanned.payloads| == |tail|;
    assert scanned.stop == |disk.segment| <==> torn == [];
    assert scanned.payloads == [] <==> tail == [];
  }

  // ---------- acceptance implies layout ----------

  lemma {:induction false} EmptyOnly(index: seq<byte>, entries: seq<nat>)
    requires |index| % 8 == 0
    requires ParseIndex(index, entries, true).Ok?
    ensures ParseIndex(index, entries, true) == Ok(entries)
    ensures index == EmptySlots(|index| / 8)
    decreases |index|
  {
    if index != [] {
      EmptyOnly(index[8..], entries);
      ZeroSlot(index);
      assert index == index[0..8] + index[8..];
    }
  }

  lemma ZeroSlot(index: seq<byte>)
    requires |index| >= 8 && FromLittleEndian(index[0..4]) == 0 && FromLittleEndian(index[4..8]) == 0
    ensures index[0..8] == EmptySlots(1)
  {
    LittleEndianEncodes(index[0..4]);
    LittleEndianEncodes(index[4..8]);
    LittleEndianZero(4);
    assert index[0..8] == index[0..4] + index[4..8];
  }

  /** The entry bytes for given positions, whatever frames they point at. */
  function EntriesAt(from: nat, positions: seq<nat>): (s: seq<byte>)
    ensures |s| == 8 * |positions|
    decreases |positions|
  {
    if positions == [] then [] else IndexEntry(from, positions[0]) + EntriesAt(from + 1, positions[1..])
  }

  lemma {:induction false} ParsedIndex(index: seq<byte>, entries: seq<nat>) returns (more: seq<nat>, slots: nat)
    requires |index| % 8 == 0
    requires |entries| <= 0x1_0000_0000
    requires ParseIndex(index, entries, false).Ok?
    ensures ParseIndex(index, entries, false) == Ok(entries + more)
    ensures index == EntriesAt(|entries|, more) + EmptySlots(slots)
    ensures |entries| + |more| <= 0x1_0000_0000
    ensures forall i :: 0 <= i < |more| ==> more[i] < 0x1_0000_0000
    decreases |index|
  {
    hide FromLittleEndian;
    hide LittleEndian;
    hide Pow256;
    if index == [] {
      more, slots := [], 0;
      assert entries + more == entries;
    } else {
      var relative := FromLittleEndian(index[0..4]);
      var position := FromLittleEndian(index[4..8]);
      Widths();
      LittleEndianEncodes(index[0..4]);
      LittleEndianEncodes(index[4..8]);
      assert index[0..8] == index[0..4] + index[4..8] == IndexEntry(relative, position);
      assert index == index[0..8] + index[8..];
      if relative == 0 && position == 0 {
        EmptyOnly(index[8..], entries);
        ZeroSlot(index);
        more, slots := [], |index| / 8;
        assert entries + more == entries;
      } else {
        var rest;
        rest, slots := ParsedIndex(index[8..], entries + [position]);
        more := [position] + rest;
        assert EntriesAt(|entries|, more) == IndexEntry(relative, position) + EntriesAt(|entries| + 1, rest);
        assert entries + more == entries + [position] + rest;
      }
    }
  }

  lemma {:induction false} CheckedRecords<E>(
    codec: Codec<E>, segment: seq<byte>, positions: seq<nat>, at: nat, offset: nat)
    returns (frames: seq<Frame>)
    requires at <= |segment|
    requires CheckCommitted(codec, segment, positions, at, offset).Ok?
    ensures Records(codec, offset, frames)
    ensures positions == Positions(at, frames)
    ensures CheckCommitted(codec, segment, positions, at, offset) == Ok(at + TotalSize(frames))
    ensures at + TotalSize(frames) <= |segment|
    ensures segment[at..at + TotalSize(frames)] == Concat(codec, frames)
    decreases |positions|
  {
    hide Concat;
    hide ReadFrame;
    hide Encode;
    if positions == [] {
      frames := [];
    } else {
      var f := CompleteIsEncoded(codec, segment, at);
      var rest := CheckedRecords(codec, segment, positions[1..], at + f.Size(), offset + 1);
      frames := [f] + rest;
      ConsRecords(codec, at, offset, f, rest);
      SplitWindow(segment, at, Encode(codec, f), Concat(codec, rest));
      assert positions == [positions[0]] + positions[1..];
    }
  }

  lemma ConsRecords<E>(codec: Codec<E>, at: nat, offset: nat, f: Frame, rest: seq<Frame>)
    requires f.Valid() && f.offset == offset && codec.decode(f.payload).Some?
    requires Records(codec, offset + 1, rest)
    ensures Records(codec, offset, [f] + rest)
    ensures Concat(codec, [f] + rest) == Encode(codec, f) + Concat(codec, rest)
    ensures TotalSize([f] + rest) == f.Size() + TotalSize(rest)
    ensures Payloads([f] + rest) == [f.payload] + Payloads(rest)
    ensures Positions(at, [f] + rest) == [at] + Positions(at + f.Size(), rest)
  {
    hide Encode;
    hide ReadFrame;
    assert ([f] + rest)[1..] == rest;
  }

  lemma {:induction false} ScannedRecords<E>(codec: Codec<E>, segment: seq<byte>, at: nat, offset: nat)
    returns (frames: seq<Frame>)
    requires at <= |segment|
    requires ScanTail(codec, segment, at, offset).Ok?
    ensures Records(codec, offset, frames)
    ensures ScanTail(codec, segment, at, offset) == Ok(Tail(Payloads(frames), at + TotalSize(frames)))
    ensures at + TotalSize(frames) <= |segment|
    ensures segment[at..at + TotalSize(frames)] == Concat(codec, frames)
    ensures ReadFrame(codec, segment, at + TotalSize(frames)) == Incomplete
    decreases |segment| - at
  {
    hide Concat;
    hide ReadFrame;
    hide Encode;
    if at == |segment| || ReadFrame(codec, segment, at).Incomplete? {
      frames := [];
    } else {
      var f := CompleteIsEncoded(codec, segment, at);
      var rest := ScannedRecords(codec, segment, at + f.Size(), offset + 1);
      frames := [f] + rest;
      ConsRecords(codec, at, offset, f, rest);
      SplitWindow(segment, at, Encode(codec, f), Concat(codec, rest));
    }
  }

  lemma {:induction false} EntriesOfPositions(from: nat, at: nat, frames: seq<Frame>)
    ensures EntriesAt(from, Positions(at, frames)) == Entries(from, at, frames)
    decreases |frames|
  {
    if frames != [] {
      EntriesOfPositions(from + 1, at + frames[0].Size(), frames[1..]);
      assert Positions(at, frames)[1..] == Positions(at + frames[0].Size(), frames[1..]);
    }
  }

  lemma {:induction false} LastPosition(at: nat, frames: seq<Frame>)
    requires frames != []
    ensures Positions(at, frames)[|frames| - 1] == at + TotalSize(frames[..|frames| - 1])
    decreases |frames|
  {
    TotalSizeFront(frames);
    if |frames| > 1 {
      LastPosition(at + frames[0].Size(), frames[1..]);
      assert frames[1..][..|frames| - 2] == frames[1..|frames| - 1];
    }
  }

  /** Every accepted pair of files is laid out: nothing else gets past the inspection. */
  lemma AcceptedHasLayout<E>(codec: Codec<E>, base: nat, disk: Disk)
    returns (indexed: seq<Frame>, tail: seq<Frame>, torn: seq<byte>, slots: nat)
    requires Inspect(codec, base, disk).Ok?
    ensures Layout(codec, base, disk, indexed, tail, torn, slots)
  {
    hide ParseIndex;
    hide CheckCommitted;
    hide ScanTail;
    hide Concat;
    hide Entries;
    hide EntriesAt;
    hide ReadFrame;
    hide Encode;
    hide TotalSize;
    hide Positions;
    var positions;
    positions, slots := ParsedIndex(disk.index, []);
    assert [] + positions == positions;
    indexed := CheckedRecords(codec, disk.segment, positions, MAGIC_BYTES, base);
    var indexedEnd := MAGIC_BYTES + TotalSize(indexed);
    tail := ScannedRecords(codec, disk.segment, indexedEnd, base + |indexed|);
    var stop := indexedEnd + TotalSize(tail);
    torn := disk.segment[stop..];
    JoinWindows(disk.segment, Magic(), Concat(codec, indexed), Concat(codec, tail));
    assert |disk.segment[..stop]| == stop;
    ReadFrameShift(codec, disk.segment[..stop], torn);
    EntriesOfPositions(0, MAGIC_BYTES, indexed);
    if indexed != [] {
      LastPosition(MAGIC_BYTES, indexed);
    }
  }

  /** Inspection succeeds on exactly the laid-out files. */
  lemma AcceptanceIsExact<E>(codec: Codec<E>, base: nat, disk: Disk)
    ensures Inspect(codec, base, disk).Ok?
            <==> exists indexed, tail, torn, slots :: Layout(codec, base, disk, indexed, tail, torn, slots)
  {
    if Inspect(codec, base, disk).Ok? {
      var indexed, tail, torn, slots := AcceptedHasLayout(codec, base, disk);
    }
    forall indexed, tail, torn, slots | Layout(codec, base, disk, indexed, tail, torn, slots)
      ensures Inspect(codec, base, disk).Ok?
    {
      LayoutAccepted(codec, base, disk, indexed, tail, torn, slots);
    }
  }

  /** Inspection reports nothing to recover exactly when the indexed records end the file. */
  lemma NothingToRecover<E>(
    codec: Codec<E>, base: nat, disk: Disk, indexed: seq<Frame>, tail: seq<Frame>, torn: seq<byte>, slots: nat)
    requires Layout(codec, base, disk, indexed, tail, torn, slots)
    ensures Inspect(codec, base, disk) == Ok(None) <==> MAGIC_BYTES + TotalSize(indexed) == |disk.segment|
  {
    LayoutAccepted(codec, base, disk, indexed, tail, torn, slots);
    if tail != [] {
      assert TotalSize(tail) >= tail[0].Size() > 0;
    }
  }
}
