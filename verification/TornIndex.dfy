/** What the inspection makes of an index entry of which only the first bytes were written. */
module TornIndex {
  import opened Bytes
  import opened Frames
  import opened Inspection
  import opened Recovery

  /** A slot whose entry was cut after `k` bytes; the rest of the slot is still zero. */
  function TornSlot(entry: seq<byte>, k: nat): (s: seq<byte>)
    requires |entry| == 8 && k <= 8
    ensures |s| == 8
  {
    entry[..k] + seq(8 - k, _ => 0)
  }

  /** A next entry that points anywhere but at the end of the indexed records is refused. */
  lemma {:induction false} WrongPositionRefused<E>(
    codec: Codec<E>, segment: seq<byte>, at: nat, offset: nat, frames: seq<Frame>, more: seq<nat>)
    requires Records(codec, offset, frames)
    requires at + TotalSize(frames) <= |segment|
    requires segment[at..at + TotalSize(frames)] == Concat(codec, frames)
    requires more != [] && more[0] != at + TotalSize(frames)
    ensures CheckCommitted(codec, segment, Positions(at, frames) + more, at, offset) == Err(EntryPointsElsewhere)
    decreases |frames|
  {
    hide ReadFrame;
    hide Encode;
    var positions := Positions(at, frames) + more;
    if frames != [] {
      var f := frames[0];
      SplitWindow(segment, at, Encode(codec, f), Concat(codec, frames[1..]));
      EncodedFrameReads(codec, segment, at, f);
      TailRecords(codec, offset, frames);
      WrongPositionRefused(codec, segment, at + f.Size(), offset + 1, frames[1..], more);
      assert positions[1..] == Positions(at + f.Size(), frames[1..]) + more;
    }
  }

  /** The files of a state whose next index entry was cut after `k` bytes. */
  function TornDisk(base: nat, s: System, k: nat): Disk
    requires k <= 8
    requires 8 * (|s.indexed| + 1) <= |s.disk.index|
    requires |s.disk.index| % 8 == 0
  {
    var run := PlainRun(base, s.indexed);
    Disk(s.disk.segment,
         Entries(0, MAGIC_BYTES, run)
         + (TornSlot(IndexEntry(|s.indexed|, MAGIC_BYTES + TotalSize(run)), k)
            + EmptySlots(|s.disk.index| / 8 - |s.indexed| - 1)))
  }

  lemma SlotParses(slot: seq<byte>, rest: seq<byte>, entries: seq<nat>)
    requires |slot| == 8 && |rest| % 8 == 0
    requires |entries| < 0x1_0000_0000
    requires forall i :: 0 <= i < |rest| ==> rest[i] == 0
    ensures |slot + rest| % 8 == 0
    ensures var relative, position := FromLittleEndian(slot[0..4]), FromLittleEndian(slot[4..8]);
            ParseIndex(slot + rest, entries, false)
            == if relative == 0 && position == 0 then Ok(entries)
               else if relative != |entries| then Err(NonContiguousIndex)
               else Ok(entries + [position])
  {
    hide LittleEndian;
    hide FromLittleEndian;
    var s := slot + rest;
    assert s[0..4] == slot[0..4] && s[4..8] == slot[4..8] && s[8..] == rest;
    assert rest == EmptySlots(|rest| / 8);
    EmptySlotsParse(|rest| / 8, entries, true);
    EmptySlotsParse(|rest| / 8, entries + [FromLittleEndian(slot[4..8])], false);
  }

  lemma SlotFields(slot: seq<byte>, relative: nat, position: nat)
    requires |slot| == 8 && relative < 0x1_0000_0000 && position < 0x1_0000_0000
    ensures slot == IndexEntry(relative, position)
            <==> FromLittleEndian(slot[0..4]) == relative && FromLittleEndian(slot[4..8]) == position
    ensures slot == EmptySlots(1)
            <==> FromLittleEndian(slot[0..4]) == 0 && FromLittleEndian(slot[4..8]) == 0
  {
    hide FromLittleEndian;
    Widths();
    LittleEndianDecodes(relative, 4);
    LittleEndianDecodes(position, 4);
    LittleEndianDecodes(0, 4);
    LittleEndianEncodes(slot[0..4]);
    LittleEndianEncodes(slot[4..8]);
    LittleEndianZero(4);
    assert slot == slot[0..4] + slot[4..8];
    var entry := IndexEntry(relative, position);
    assert entry[0..4] == LittleEndian(relative, 4) && entry[4..8] == LittleEndian(position, 4);
    assert EmptySlots(1)[0..4] == LittleEndian(0, 4) == EmptySlots(1)[4..8];
  }

  /**
   * A torn entry is harmless exactly when its bytes read as an empty slot or as the whole entry;
   * any other cut makes the log refuse to open, although no record was damaged.
   */
  lemma TornEntryIsExact<E>(codec: Codec<E>, base: nat, s: System, k: nat)
    requires Inv(codec, base, s) && s.queue != [] && k <= 8
    requires Plain(base + |s.indexed|, s.queue[0]).Size() <= s.written
    requires 8 * (|s.indexed| + 1) <= |s.disk.index|
    ensures var entry := IndexEntry(|s.indexed|, MAGIC_BYTES + TotalSize(PlainRun(base, s.indexed)));
            Inspect(codec, base, TornDisk(base, s, k)).Ok?
            <==> TornSlot(entry, k) == EmptySlots(1) || TornSlot(entry, k) == entry
  {
    hide ParseIndex;
    hide CheckCommitted;
    hide ScanTail;
    hide Inv;
    hide Room;
    hide TotalSize;
    hide Entries;
    hide IndexEntry;
    NextEntryFits(codec, base, s);
    var run := PlainRun(base, s.indexed);
    var indexedEnd := MAGIC_BYTES + TotalSize(run);
    var entry := IndexEntry(|s.indexed|, indexedEnd);
    var slot := TornSlot(entry, k);
    var rest := EmptySlots(|s.disk.index| / 8 - |s.indexed| - 1);
    var positions := Positions(MAGIC_BYTES, run);
    var disk := TornDisk(base, s, k);
    EntriesParse([], MAGIC_BYTES, run, slot + rest);
    assert [] + positions == positions;
    SlotParses(slot, rest, positions);
    SlotFields(slot, |s.indexed|, indexedEnd);
    if slot == EmptySlots(1) {
      assert disk.index == Entries(0, MAGIC_BYTES, run) + (slot + rest);
      UntouchedSlotAccepted(codec, base, s, slot);
    } else if slot == entry {
      WholeSlotAccepted(codec, base, s);
    } else if FromLittleEndian(slot[0..4]) == |s.indexed| {
      StoredRecords(codec, base, s);
      WrongPositionRefused(codec, s.disk.segment, MAGIC_BYTES, base, run, [FromLittleEndian(slot[4..8])]);
    }
  }

  /** The cut between number and position is refused whenever some record is indexed already. */
  lemma HalfEntryRefused<E>(codec: Codec<E>, base: nat, s: System)
    requires Inv(codec, base, s) && s.queue != [] && s.indexed != []
    requires Plain(base + |s.indexed|, s.queue[0]).Size() <= s.written
    requires 8 * (|s.indexed| + 1) <= |s.disk.index|
    ensures Inspect(codec, base, TornDisk(base, s, 4)).Err?
  {
    hide Inspect;
    hide Inv;
    hide TornDisk;
    hide TotalSize;
    NextEntryFits(codec, base, s);
    var position := MAGIC_BYTES + TotalSize(PlainRun(base, s.indexed));
    var entry := IndexEntry(|s.indexed|, position);
    var slot := TornSlot(entry, 4);
    TornEntryIsExact(codec, base, s, 4);
    SlotFields(entry, |s.indexed|, position);
    SlotFields(slot, |s.indexed|, position);
    assert slot[0..4] == entry[0..4];
    LittleEndianZero(4);
    assert slot[4..8] == LittleEndian(0, 4);
    LittleEndianDecodes(0, 4);
    Widths();
  }

  lemma NextEntryFits<E>(codec: Codec<E>, base: nat, s: System)
    requires Inv(codec, base, s) && s.queue != []
    ensures MAGIC_BYTES + TotalSize(PlainRun(base, s.indexed)) < 0x1_0000_0000 && |s.indexed| < 0x1_0000_0000
    ensures var run := PlainRun(base, s.indexed);
            run == [] || MAGIC_BYTES + TotalSize(run[..|run| - 1]) < 0x1_0000_0000
    ensures |s.disk.index| % 8 == 0
  {
    RoomForPositions(base, s);
    hide Concat;
    hide Entries;
    hide AllAcceptable;
    var all := PlainRun(base, s.indexed + s.queue);
    assert all[..|s.indexed|] == PlainRun(base, s.indexed);
    TotalSizePrefix(all, |s.indexed|);
  }

  lemma StoredRecords<E>(codec: Codec<E>, base: nat, s: System)
    requires Inv(codec, base, s)
    ensures var run := PlainRun(base, s.indexed);
            && Records(codec, base, run)
            && MAGIC_BYTES + TotalSize(run) <= |s.disk.segment|
            && s.disk.segment[MAGIC_BYTES..MAGIC_BYTES + TotalSize(run)] == Concat(codec, run)
  {
    hide Concat;
    hide Entries;
    hide TotalSize;
    RoomForPositions(base, s);
    SplitAcceptable(codec, s.indexed, s.queue);
    PlainValid(codec, base, s.indexed);
    var cut := Concat(codec, Pending(base, s))[..s.written];
    LayoutWindows(s.disk.segment, Magic(), Concat(codec, PlainRun(base, s.indexed)), cut, []);
  }

  lemma UntouchedSlotAccepted<E>(codec: Codec<E>, base: nat, s: System, slot: seq<byte>)
    requires Inv(codec, base, s) && slot == EmptySlots(1)
    requires 8 * (|s.indexed| + 1) <= |s.disk.index|
    ensures var rest := EmptySlots(|s.disk.index| / 8 - |s.indexed| - 1);
            Inspect(codec, base,
              Disk(s.disk.segment, Entries(0, MAGIC_BYTES, PlainRun(base, s.indexed)) + (slot + rest))).Ok?
  {
    hide Concat;
    hide Entries;
    hide TotalSize;
    hide Inspect;
    ReopeningRecovers(codec, base, s);
    var slots := |s.disk.index| / 8 - |s.indexed|;
    assert slot + EmptySlots(slots - 1) == EmptySlots(slots);
    assert s.disk == Disk(s.disk.segment, Entries(0, MAGIC_BYTES, PlainRun(base, s.indexed)) + EmptySlots(slots));
  }

  lemma WholeSlotAccepted<E>(codec: Codec<E>, base: nat, s: System)
    requires Inv(codec, base, s) && s.queue != []
    requires Plain(base + |s.indexed|, s.queue[0]).Size() <= s.written
    requires 8 * (|s.indexed| + 1) <= |s.disk.index|
    ensures var run := PlainRun(base, s.indexed);
            var rest := EmptySlots(|s.disk.index| / 8 - |s.indexed| - 1);
            Inspect(codec, base, Disk(s.disk.segment,
              Entries(0, MAGIC_BYTES, run) + (IndexEntry(|s.indexed|, MAGIC_BYTES + TotalSize(run)) + rest))).Ok?
  {
    hide Concat;
    hide Entries;
    hide TotalSize;
    hide Inspect;
    hide IndexEntry;
    hide PutEntry;
    var run := PlainRun(base, s.indexed);
    var first := Plain(base + |s.indexed|, s.queue[0]);
    var position := MAGIC_BYTES + TotalSize(run);
    var slots := |s.disk.index| / 8 - |s.indexed|;
    var running := s.(up := true);
    assert Pending(base, running) == Pending(base, s);
    var s' := running.(disk := s.disk.(index := PutEntry(s.disk.index, |s.indexed|, position)),
                       queue := s.queue[1..], written := s.written - first.Size(),
                       indexed := s.indexed + [s.queue[0]]);
    WriteEntryKeeps(codec, base, running, s');
    ReopeningRecovers(codec, base, s');
    PutEntryFillsSlot(Entries(0, MAGIC_BYTES, run), slots, |s.indexed|, position);
    Associate(Entries(0, MAGIC_BYTES, run), IndexEntry(|s.indexed|, position), EmptySlots(slots - 1));
  }
}
