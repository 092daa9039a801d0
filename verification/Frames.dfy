/**
 * The framed record of a commit-log segment: a 20-byte header (offset, body size, checksum,
 * two spare bytes, metadata size) followed by the metadata and the payload.
 */
module Frames {
  import opened Bytes

  const HEADER_BYTES: nat := 20
  const MAX_MESSAGE_BYTES: nat := 32 * 1024 * 1024

  /** The two bytes every segment starts with. */
  const MAGIC_BYTES: nat := 2

  function Magic(): (s: seq<byte>)
    ensures |s| == MAGIC_BYTES
  {
    [0xff, 0xff]
  }

  type uint32 = x: int | 0 <= x < 0x1_0000_0000

  /** What the program takes from libraries: the body checksum and the event serialization. */
  datatype Codec<!E> = Codec(crc: seq<byte> -> uint32, encode: E -> seq<byte>, decode: seq<byte> -> Option<E>)

  ghost predicate RoundTrips<E(!new)>(codec: Codec<E>)
  {
    forall e: E :: codec.decode(codec.encode(e)) == Some(e)
  }

  datatype Frame = Frame(offset: nat, spare: seq<byte>, metadata: seq<byte>, payload: seq<byte>)
  {
    function Body(): seq<byte> { metadata + payload }

    predicate Valid()
    {
      && offset < 0x1_0000_0000_0000_0000
      && |spare| == 2
      && |metadata| < 0x1_0000
      && |Body()| <= MAX_MESSAGE_BYTES
    }

    function Size(): nat { HEADER_BYTES + |Body()| }
  }

  function Encode<E>(codec: Codec<E>, f: Frame): (s: seq<byte>)
    requires f.Valid()
    ensures |s| == f.Size()
  {
    LittleEndian(f.offset, 8) + LittleEndian(|f.Body()|, 4) + LittleEndian(codec.crc(f.Body()), 4)
    + f.spare + LittleEndian(|f.metadata|, 2) + f.Body()
  }

  datatype PhysicalFrame =
    | Complete(offset: nat, payload: seq<byte>, end: nat)
    | Incomplete

  /** Reads one frame at a byte position; anything short, oversized or failing its checksum is incomplete. */
  function ReadFrame<E>(codec: Codec<E>, segment: seq<byte>, position: nat): (r: PhysicalFrame)
    requires position <= |segment|
    ensures r.Complete? ==> position + HEADER_BYTES <= r.end <= |segment|
  {
    if position + HEADER_BYTES > |segment| then Incomplete
    else
      var header := segment[position..position + HEADER_BYTES];
      var bodySize := FromLittleEndian(header[8..12]);
      var metadataSize := FromLittleEndian(header[18..20]);
      if bodySize > MAX_MESSAGE_BYTES || metadataSize > bodySize then Incomplete
      else
        var end := position + HEADER_BYTES + bodySize;
        if end > |segment| then Incomplete
        else
          var body := segment[position + HEADER_BYTES..end];
          if FromLittleEndian(header[12..16]) != codec.crc(body) then Incomplete
          else Complete(FromLittleEndian(header[0..8]), body[metadataSize..], end)
  }

  // ---------- the header fields of an encoded frame ----------

  lemma HeaderFields<E>(codec: Codec<E>, f: Frame, s: seq<byte>)
    requires f.Valid() && |s| >= HEADER_BYTES && s[..HEADER_BYTES] == Encode(codec, f)[..HEADER_BYTES]
    ensures FromLittleEndian(s[..HEADER_BYTES][0..8]) == f.offset
    ensures FromLittleEndian(s[..HEADER_BYTES][8..12]) == |f.Body()|
    ensures FromLittleEndian(s[..HEADER_BYTES][12..16]) == codec.crc(f.Body())
    ensures s[..HEADER_BYTES][16..18] == f.spare
    ensures FromLittleEndian(s[..HEADER_BYTES][18..20]) == |f.metadata|
  {
    var h := Encode(codec, f)[..HEADER_BYTES];
    Widths();
    assert h[0..8] == LittleEndian(f.offset, 8);
    assert h[8..12] == LittleEndian(|f.Body()|, 4);
    assert h[12..16] == LittleEndian(codec.crc(f.Body()), 4);
    assert h[16..18] == f.spare;
    assert h[18..20] == LittleEndian(|f.metadata|, 2);
    LittleEndianDecodes(f.offset, 8);
    LittleEndianDecodes(|f.Body()|, 4);
    LittleEndianDecodes(codec.crc(f.Body()), 4);
    LittleEndianDecodes(|f.metadata|, 2);
  }

  lemma EncodedBody<E>(codec: Codec<E>, f: Frame)
    requires f.Valid()
    ensures Encode(codec, f)[HEADER_BYTES..] == f.Body()
  {
  }

  /** A frame found anywhere in a segment reads back whole, with its own offset, payload and end. */
  lemma EncodedFrameReads<E>(codec: Codec<E>, segment: seq<byte>, position: nat, f: Frame)
    requires f.Valid() && position + f.Size() <= |segment|
    requires segment[position..position + f.Size()] == Encode(codec, f)
    ensures ReadFrame(codec, segment, position) == Complete(f.offset, f.payload, position + f.Size())
  {
    hide Encode;
    hide FromLittleEndian;
    var s := segment[position..position + f.Size()];
    assert s[..HEADER_BYTES] == segment[position..position + HEADER_BYTES];
    HeaderFields(codec, f, s);
    EncodedBody(codec, f);
    assert segment[position + HEADER_BYTES..position + f.Size()] == s[HEADER_BYTES..] == f.Body();
    assert f.Body()[|f.metadata|..] == f.payload;
  }

  /** A frame cut short at the end of the file is incomplete, whatever checksum the reader uses. */
  lemma TornFrameIncomplete<E>(writer: Codec<E>, reader: Codec<E>, before: seq<byte>, f: Frame, cut: nat)
    requires f.Valid() && cut < f.Size()
    ensures ReadFrame(reader, before + Encode(writer, f)[..cut], |before|) == Incomplete
  {
    if cut >= HEADER_BYTES {
      var s := Encode(writer, f)[..cut];
      var segment := before + s;
      assert s[..HEADER_BYTES] == Encode(writer, f)[..HEADER_BYTES];
      assert segment[|before|..|before| + HEADER_BYTES] == s[..HEADER_BYTES];
      HeaderFields(writer, f, s);
    }
  }

  /** Conversely, whatever reads as complete is the encoding of exactly one valid frame. */
  lemma CompleteIsEncoded<E>(codec: Codec<E>, segment: seq<byte>, position: nat) returns (f: Frame)
    requires position <= |segment| && ReadFrame(codec, segment, position).Complete?
    ensures f.Valid()
    ensures ReadFrame(codec, segment, position) == Complete(f.offset, f.payload, position + f.Size())
    ensures position + f.Size() <= |segment|
    ensures segment[position..position + f.Size()] == Encode(codec, f)
  {
    var r := ReadFrame(codec, segment, position);
    var header := segment[position..position + HEADER_BYTES];
    var body := segment[position + HEADER_BYTES..r.end];
    var metadataSize := FromLittleEndian(header[18..20]);
    f := Frame(r.offset, header[16..18], body[..metadataSize], body[metadataSize..]);
    assert f.Body() == body;
    HeaderBytes(codec, header, f);
    SplitWindow(segment, position, header, body);
  }

  /** Twenty bytes are determined by the fields they decode to. */
  lemma HeaderBytes<E>(codec: Codec<E>, header: seq<byte>, f: Frame)
    requires |header| == HEADER_BYTES
    requires f.offset == FromLittleEndian(header[0..8]) && |f.Body()| == FromLittleEndian(header[8..12])
    requires codec.crc(f.Body()) == FromLittleEndian(header[12..16])
    requires f.spare == header[16..18] && |f.metadata| == FromLittleEndian(header[18..20])
    requires |f.Body()| <= MAX_MESSAGE_BYTES
    ensures f.Valid() && Encode(codec, f) == header + f.Body()
  {
    hide FromLittleEndian;
    hide LittleEndian;
    hide Pow256;
    Widths();
    LittleEndianEncodes(header[0..8]);
    LittleEndianEncodes(header[8..12]);
    LittleEndianEncodes(header[12..16]);
    LittleEndianEncodes(header[18..20]);
    assert header == header[0..8] + header[8..12] + header[12..16] + header[16..18] + header[18..20];
  }

  /** Reading is exact: complete at a position if and only if the bytes there are an encoded frame. */
  lemma CompleteIffEncoded<E>(codec: Codec<E>, segment: seq<byte>, position: nat)
    requires position <= |segment|
    ensures ReadFrame(codec, segment, position).Complete?
            <==> exists f: Frame :: f.Valid() && position + f.Size() <= |segment|
                   && segment[position..position + f.Size()] == Encode(codec, f)
  {
    if ReadFrame(codec, segment, position).Complete? {
      var f := CompleteIsEncoded(codec, segment, position);
    }
    forall f: Frame | f.Valid() && position + f.Size() <= |segment|
                      && segment[position..position + f.Size()] == Encode(codec, f)
      ensures ReadFrame(codec, segment, position).Complete?
    {
      EncodedFrameReads(codec, segment, position, f);
    }
  }

  /** Splitting a window of a segment that holds two byte strings in a row. */
  lemma SplitWindow(segment: seq<byte>, position: nat, a: seq<byte>, b: seq<byte>)
    requires position + |a| + |b| <= |segment|
    ensures segment[position..position + |a| + |b|] == a + b
            <==> segment[position..position + |a|] == a && segment[position + |a|..position + |a| + |b|] == b
  {
    var w := segment[position..position + |a| + |b|];
    assert w[..|a|] == segment[position..position + |a|];
    assert w[|a|..] == segment[position + |a|..position + |a| + |b|];
    assert w == w[..|a|] + w[|a|..];
  }

  /** Reading depends only on the bytes from the position on. */
  lemma ReadFrameShift<E>(codec: Codec<E>, before: seq<byte>, rest: seq<byte>)
    ensures ReadFrame(codec, before + rest, |before|).Complete? <==> ReadFrame(codec, rest, 0).Complete?
  {
    var segment := before + rest;
    var p := |before|;
    if HEADER_BYTES <= |rest| {
      assert segment[p..p + HEADER_BYTES] == rest[0..HEADER_BYTES];
      var bodySize := FromLittleEndian(rest[0..HEADER_BYTES][8..12]);
      if HEADER_BYTES + bodySize <= |rest| {
        assert segment[p + HEADER_BYTES..p + HEADER_BYTES + bodySize]
            == rest[HEADER_BYTES..HEADER_BYTES + bodySize];
      }
    }
  }

  // ---------- runs of frames ----------

  predicate AllValid(frames: seq<Frame>) { forall i :: 0 <= i < |frames| ==> frames[i].Valid() }

  function Concat<E>(codec: Codec<E>, frames: seq<Frame>): (s: seq<byte>)
    requires AllValid(frames)
    ensures |s| == TotalSize(frames)
  {
    if frames == [] then [] else Encode(codec, frames[0]) + Concat(codec, frames[1..])
  }

  function TotalSize(frames: seq<Frame>): nat
  {
    if frames == [] then 0 else frames[0].Size() + TotalSize(frames[1..])
  }

  lemma {:induction false} ConcatAppend<E>(codec: Codec<E>, a: seq<Frame>, b: seq<Frame>)
    requires AllValid(a) && AllValid(b)
    ensures AllValid(a + b)
    ensures Concat(codec, a + b) == Concat(codec, a) + Concat(codec, b)
    ensures TotalSize(a + b) == TotalSize(a) + TotalSize(b)
  {
    hide Encode;
    if a == [] {
      assert a + b == b;
      assert Concat(codec, a) == [];
    } else {
      ConcatAppend(codec, a[1..], b);
      assert (a + b)[1..] == a[1..] + b && (a + b)[0] == a[0];
      Associate(Encode(codec, a[0]), Concat(codec, a[1..]), Concat(codec, b));
    }
  }

  lemma Associate(x: seq<byte>, y: seq<byte>, z: seq<byte>)
    ensures x + (y + z) == x + y + z
  {
  }

  /** The frame `append` writes: no metadata, spare bytes zero. */
  function Plain(offset: nat, payload: seq<byte>): Frame { Frame(offset, [0, 0], [], payload) }

  /** The frames of consecutive appends starting at an offset. */
  function PlainRun(offset: nat, payloads: seq<seq<byte>>): (fs: seq<Frame>)
    ensures |fs| == |payloads|
  {
    seq(|payloads|, i requires 0 <= i < |payloads| => Plain(offset + i, payloads[i]))
  }

  lemma PlainRunAppend(offset: nat, a: seq<seq<byte>>, b: seq<seq<byte>>)
    ensures PlainRun(offset, a + b) == PlainRun(offset, a) + PlainRun(offset + |a|, b)
  {
  }
}
