/** Which fault the inspection names: the first one in the order index, header, indexed records, tail. */
module InspectionFaults {
  import opened Bytes
  import opened Frames
  import opened Inspection

  /** Byte `i` of a little-endian number is its `i`-th digit to base 256, the lowest first. */
  lemma {:induction false} LittleEndianByte(value: nat, width: nat, i: nat)
    requires i < width
    ensures LittleEndian(value, width)[i] == (value / Pow256(i)) % 256
  {
    if i > 0 {
      LittleEndianByte(value / 256, width - 1, i - 1);
      DivideTwice(value, Pow256(i - 1));
    }
  }

  lemma DivideTwice(value: nat, p: nat)
    requires p > 0
    ensures value / 256 / p == value / (256 * p)
  {
    var q, r := value / 256 / p, value / 256 % p;
    var low := value % 256;
    assert value == 256 * (q * p + r) + low;
    assert value == (256 * p) * q + (256 * r + low) by {
      assert 256 * (q * p) == (256 * p) * q;
    }
    assert 256 * r + low < 256 * p;
    Quotient(value, 256 * p, q, 256 * r + low);
  }

  lemma Quotient(value: nat, d: nat, q: nat, r: nat)
    requires d > 0 && r < d && value == d * q + r
    ensures value / d == q
  {
    var k, m := value / d, value % d;
    assert value == d * k + m && m < d;
    Monotone(k, q, d);
    Monotone(q, k, d);
  }

  lemma {:induction false} Monotone(a: nat, b: nat, d: nat)
    ensures a < b ==> d * a + d <= d * b
    decreases b
  {
    if a < b {
      assert d * b == d * (b - 1) + d;
      Monotone(a, b - 1, d);
    }
  }

  // ---------- the index ----------

  /** Whether the slot is all zero, and the record number it holds. */
  predicate IsEmpty(slot: seq<byte>)
    requires |slot| == 8
  {
    FromLittleEndian(slot[0..4]) == 0 && FromLittleEndian(slot[4..8]) == 0
  }

  function NumberIn(slot: seq<byte>): nat
    requires |slot| == 8
  {
    FromLittleEndian(slot[0..4])
  }

  function Joined(slots: seq<seq<byte>>): (index: seq<byte>)
    requires forall i :: 0 <= i < |slots| ==> |slots[i]| == 8
    ensures |index| == 8 * |slots|
  {
    if slots == [] then [] else slots[0] + Joined(slots[1..])
  }

  /** The slots from `from` on that hold consecutive numbers. */
  predicate NumberedSlots(slots: seq<seq<byte>>, from: nat, n: nat)
    requires n <= |slots| && forall i :: 0 <= i < |slots| ==> |slots[i]| == 8
  {
    forall i :: 0 <= i < n ==> !IsEmpty(slots[i]) && NumberIn(slots[i]) == from + i
  }

  lemma JoinedFirst(slots: seq<seq<byte>>)
    requires slots != [] && forall i :: 0 <= i < |slots| ==> |slots[i]| == 8
    ensures var index := Joined(slots);
            |index| % 8 == 0 && index[0..4] == slots[0][0..4] && index[4..8] == slots[0][4..8] &&
            index[8..] == Joined(slots[1..])
  {
    var rest := Joined(slots[1..]);
    var index := Joined(slots);
    assert index == slots[0] + rest && |index| == 8 * |slots|;
    SliceFirst(slots[0], rest);
    EightTimes(|slots|);
  }

  lemma SliceFirst(first: seq<byte>, rest: seq<byte>)
    requires |first| == 8
    ensures (first + rest)[0..4] == first[0..4] && (first + rest)[4..8] == first[4..8] && (first + rest)[8..] == rest
  {
  }

  lemma EightTimes(n: nat)
    ensures (8 * n) % 8 == 0
  {
  }

  lemma {:induction false} FullAfterEmpty(slots: seq<seq<byte>>, entries: seq<nat>, k: nat)
    requires k < |slots| && forall i :: 0 <= i < |slots| ==> |slots[i]| == 8
    requires (forall i :: 0 <= i < k ==> IsEmpty(slots[i])) && !IsEmpty(slots[k])
    ensures |Joined(slots)| % 8 == 0 && ParseIndex(Joined(slots), entries, true) == Err(EntryAfterEmptySlot)
    decreases |slots|
  {
    hide FromLittleEndian;
    hide Joined;
    JoinedFirst(slots);
    if k > 0 {
      FullAfterEmpty(slots[1..], entries, k - 1);
    }
  }

  /** Behind any numbered slots, some empty and then a full one: the full one is misplaced. */
  lemma {:induction false} MisplacedSlot(slots: seq<seq<byte>>, entries: seq<nat>, n: nat, k: nat)
    requires n < k < |slots| && forall i :: 0 <= i < |slots| ==> |slots[i]| == 8
    requires |entries| + |slots| <= 0x1_0000_0000 && NumberedSlots(slots, |entries|, n)
    requires (forall i :: n <= i < k ==> IsEmpty(slots[i])) && !IsEmpty(slots[k])
    ensures |Joined(slots)| % 8 == 0 && ParseIndex(Joined(slots), entries, false) == Err(EntryAfterEmptySlot)
    decreases |slots|
  {
    hide FromLittleEndian;
    hide Joined;
    JoinedFirst(slots);
    if n == 0 {
      FullAfterEmpty(slots[1..], entries, k - 1);
    } else {
      MisplacedSlot(slots[1..], entries + [FromLittleEndian(slots[0][4..8])], n - 1, k - 1);
    }
  }

  /** Behind any numbered slots, a full one with another number breaks the sequence. */
  lemma {:induction false} GapInNumbers(slots: seq<seq<byte>>, entries: seq<nat>, n: nat)
    requires n < |slots| && forall i :: 0 <= i < |slots| ==> |slots[i]| == 8
    requires |entries| + |slots| <= 0x1_0000_0000 && NumberedSlots(slots, |entries|, n)
    requires !IsEmpty(slots[n]) && NumberIn(slots[n]) != |entries| + n
    ensures |Joined(slots)| % 8 == 0 && ParseIndex(Joined(slots), entries, false) == Err(NonContiguousIndex)
    decreases |slots|
  {
    hide FromLittleEndian;
    hide Joined;
    JoinedFirst(slots);
    if n > 0 {
      GapInNumbers(slots[1..], entries + [FromLittleEndian(slots[0][4..8])], n - 1);
    }
  }

  // ---------- the records ----------

  /** Sound records are passed over: what follows them decides. */
  lemma {:induction false} SoundRecordsPass<E>(
    codec: Codec<E>, segment: seq<byte>, at: nat, offset: nat, frames: seq<Frame>, more: seq<nat>)
    requires Records(codec, offset, frames)
    requires at + TotalSize(frames) <= |segment|
    requires segment[at..at + TotalSize(frames)] == Concat(codec, frames)
    ensures CheckCommitted(codec, segment, Positions(at, frames) + more, at, offset) ==
            CheckCommitted(codec, segment, more, at + TotalSize(frames), offset + |frames|)
    decreases |frames|
  {
    hide ReadFrame;
    hide Encode;
    hide CheckCommitted;
    var positions := Positions(at, frames) + more;
    if frames == [] {
      assert positions == more;
    } else {
      var f := frames[0];
      SplitWindow(segment, at, Encode(codec, f), Concat(codec, frames[1..]));
      EncodedFrameReads(codec, segment, at, f);
      TailRecords(codec, offset, frames);
      SoundRecordsPass(codec, segment, at + f.Size(), offset + 1, frames[1..], more);
      assert positions[1..] == Positions(at + f.Size(), frames[1..]) + more;
      CheckOne(codec, segment, positions, at, offset, f);
    }
  }

  lemma CheckOne<E>(codec: Codec<E>, segment: seq<byte>, positions: seq<nat>, at: nat, offset: nat, f: Frame)
    requires at + f.Size() <= |segment| && f.offset == offset && codec.decode(f.payload).Some?
    requires positions != [] && positions[0] == at
    requires ReadFrame(codec, segment, at) == Complete(f.offset, f.payload, at + f.Size())
    ensures CheckCommitted(codec, segment, positions, at, offset) ==
            CheckCommitted(codec, segment, positions[1..], at + f.Size(), offset + 1)
  {
    hide ReadFrame;
  }

  lemma {:induction false} SoundTailPasses<E>(
    codec: Codec<E>, segment: seq<byte>, at: nat, offset: nat, frames: seq<Frame>)
    requires Records(codec, offset, frames)
    requires at + TotalSize(frames) <= |segment|
    requires segment[at..at + TotalSize(frames)] == Concat(codec, frames)
    ensures ScanTail(codec, segment, at, offset) ==
            Prepend(Payloads(frames), ScanTail(codec, segment, at + TotalSize(frames), offset + |frames|))
    decreases |frames|
  {
    hide ReadFrame;
    hide Encode;
    hide ScanTail;
    hide Prepend;
    if frames == [] {
      PrependNone(ScanTail(codec, segment, at, offset));
      assert Payloads(frames) == [];
    } else {
      var f := frames[0];
      SplitWindow(segment, at, Encode(codec, f), Concat(codec, frames[1..]));
      EncodedFrameReads(codec, segment, at, f);
      TailRecords(codec, offset, frames);
      SoundTailPasses(codec, segment, at + f.Size(), offset + 1, frames[1..]);
      var rest := ScanTail(codec, segment, at + TotalSize(frames), offset + |frames|);
      ScanOne(codec, segment, at, offset, f);
      PrependBoth(f.payload, Payloads(frames[1..]), rest);
    }
  }

  lemma ScanOne<E>(codec: Codec<E>, segment: seq<byte>, at: nat, offset: nat, f: Frame)
    requires at + f.Size() <= |segment| && f.offset == offset && codec.decode(f.payload).Some?
    requires ReadFrame(codec, segment, at) == Complete(f.offset, f.payload, at + f.Size())
    ensures ScanTail(codec, segment, at, offset) ==
            Prepend([f.payload], ScanTail(codec, segment, at + f.Size(), offset + 1))
  {
    hide ReadFrame;
  }

  lemma PrependBoth(p: seq<byte>, rest: seq<seq<byte>>, r: Result<Tail, LogError>)
    ensures Prepend([p], Prepend(rest, r)) == Prepend([p] + rest, r)
  {
    if r.Ok? {
      assert [p] + (rest + r.value.payloads) == [p] + rest + r.value.payloads;
    }
  }

  /** Behind any sound records, an indexed record at fault is named by what is wrong with it first. */
  lemma IndexedRecordAtFault<E>(
    codec: Codec<E>, segment: seq<byte>, at: nat, offset: nat, frames: seq<Frame>, more: seq<nat>)
    requires Records(codec, offset, frames) && more != []
    requires at + TotalSize(frames) <= |segment|
    requires segment[at..at + TotalSize(frames)] == Concat(codec, frames)
    ensures var end, expected := at + TotalSize(frames), offset + |frames|;
            var r := CheckCommitted(codec, segment, Positions(at, frames) + more, at, offset);
            && (more[0] != end ==> r == Err(EntryPointsElsewhere))
            && (more[0] == end ==>
                  match ReadFrame(codec, segment, end)
                  case Incomplete => r == Err(CommittedRecordDamaged)
                  case Complete(found, payload, _) =>
                    (found != expected ==> r == Err(CommittedOffsetMismatch)) &&
                    (found == expected && codec.decode(payload).None? ==> r == Err(CommittedRecordUndecodable)))
  {
    hide ReadFrame;
    hide Concat;
    hide Positions;
    hide Records;
    hide CheckCommitted;
    hide TotalSize;
    SoundRecordsPass(codec, segment, at, offset, frames, more);
    NextIndexedRecord(codec, segment, at + TotalSize(frames), offset + |frames|, more);
  }

  lemma NextIndexedRecord<E>(codec: Codec<E>, segment: seq<byte>, end: nat, expected: nat, more: seq<nat>)
    requires more != [] && end <= |segment|
    ensures var r := CheckCommitted(codec, segment, more, end, expected);
            && (more[0] != end ==> r == Err(EntryPointsElsewhere))
            && (more[0] == end ==>
                  match ReadFrame(codec, segment, end)
                  case Incomplete => r == Err(CommittedRecordDamaged)
                  case Complete(found, payload, _) =>
                    (found != expected ==> r == Err(CommittedOffsetMismatch)) &&
                    (found == expected && codec.decode(payload).None? ==> r == Err(CommittedRecordUndecodable)))
  {
    hide ReadFrame;
  }

  /** So is an unindexed one, except that damage is not a fault there: it ends the tail. */
  lemma UnindexedRecordAtFault<E>(codec: Codec<E>, segment: seq<byte>, at: nat, offset: nat, frames: seq<Frame>)
    requires Records(codec, offset, frames)
    requires at + TotalSize(frames) <= |segment|
    requires segment[at..at + TotalSize(frames)] == Concat(codec, frames)
    ensures var end, expected := at + TotalSize(frames), offset + |frames|;
            var r := ScanTail(codec, segment, at, offset);
            match ReadFrame(codec, segment, end)
            case Incomplete => r == Ok(Tail(Payloads(frames), end))
            case Complete(found, payload, _) =>
              (found != expected ==> r == Err(UnindexedOffsetMismatch)) &&
              (found == expected && codec.decode(payload).None? ==> r == Err(UnindexedRecordUndecodable))
  {
    hide ReadFrame;
    hide Concat;
    hide Records;
    hide ScanTail;
    hide TotalSize;
    hide Payloads;
    SoundTailPasses(codec, segment, at, offset, frames);
    NextUnindexedRecord(codec, segment, at + TotalSize(frames), offset + |frames|);
    assert Payloads(frames) + [] == Payloads(frames);
  }

  lemma NextUnindexedRecord<E>(codec: Codec<E>, segment: seq<byte>, end: nat, expected: nat)
    requires end <= |segment|
    ensures var r := ScanTail(codec, segment, end, expected);
            match ReadFrame(codec, segment, end)
            case Incomplete => r == Ok(Tail([], end))
            case Complete(found, payload, _) =>
              (found != expected ==> r == Err(UnindexedOffsetMismatch)) &&
              (found == expected && codec.decode(payload).None? ==> r == Err(UnindexedRecordUndecodable))
  {
    hide ReadFrame;
    NothingAtEnd(codec, segment);
  }

  lemma NothingAtEnd<E>(codec: Codec<E>, segment: seq<byte>)
    ensures ReadFrame(codec, segment, |segment|) == Incomplete
  {
  }

  /** A fault of the index comes before any of the segment, and a segment starts with two bytes 255. */
  lemma FaultsInOrder<E>(codec: Codec<E>, base: nat, disk: Disk)
    ensures Inspect(codec, base, disk) == Err(InvalidIndexLength) <== |disk.index| % 8 != 0
    ensures |disk.index| % 8 == 0 && ParseIndex(disk.index, [], false).Err? ==>
              Inspect(codec, base, disk) == Err(ParseIndex(disk.index, [], false).error)
    ensures |disk.index| % 8 == 0 && ParseIndex(disk.index, [], false).Ok? ==>
              && (|disk.segment| < 2 ==> Inspect(codec, base, disk) == Err(MissingHeader))
              && (|disk.segment| >= 2 && (disk.segment[0] != 255 || disk.segment[1] != 255) ==>
                    Inspect(codec, base, disk) == Err(InvalidMagic))
    ensures Inspect(codec, base, disk).Ok? ==> |disk.segment| >= 2 && disk.segment[..2] == [255, 255]
  {
    hide ParseIndex;
    hide CheckCommitted;
    hide ScanTail;
    if |disk.segment| >= 2 {
      assert disk.segment[..2] == [disk.segment[0], disk.segment[1]];
    }
  }
}
