/** Shrinking event payloads for display: long arrays and strings are replaced by marked previews. */
module Compaction {
  import opened Bytes

  const LARGE_ARRAY: nat := 96
  const ARRAY_PREVIEW: nat := 12
  const STRING_PREVIEW: nat := 512

  /** Text as its UTF-8 bytes. */
  type Text = seq<byte>

  datatype Value =
    | Null
    | Bool(b: bool)
    | Number(n: int)
    | String(text: Text)
    | Array(values: seq<Value>)
    | Object(fields: seq<Field>)

  datatype Field = Field(key: Text, value: Value)

  /** The bytes of an ASCII literal. */
  function Ascii(s: string): (t: Text)
    ensures |t| == |s|
  {
    seq(|s|, i requires 0 <= i < |s| => if s[i] < 128 as char then s[i] as int else 0x3F)
  }

  // ---------- character boundaries ----------

  predicate Continuation(b: byte) { 0x80 <= b < 0xC0 }

  /** A position a string may be cut at: an end, or one that does not hold a continuation byte. */
  predicate IsCharBoundary(t: Text, i: nat)
  {
    i == 0 || i == |t| || (i < |t| && !Continuation(t[i]))
  }

  /** The length of the character a lead byte starts. */
  function CharLength(lead: byte): nat
  {
    if lead < 0x80 then 1 else if 0xC2 <= lead < 0xE0 then 2 else if 0xE0 <= lead < 0xF0 then 3
    else if 0xF0 <= lead < 0xF5 then 4 else 0
  }

  predicate WellFormedChar(c: Text)
  {
    && c != [] && CharLength(c[0]) == |c|
    && (forall i :: 1 <= i < |c| ==> Continuation(c[i]))
    && (c[0] == 0xE0 ==> c[1] >= 0xA0) && (c[0] == 0xED ==> c[1] < 0xA0)
    && (c[0] == 0xF0 ==> c[1] >= 0x90) && (c[0] == 0xF4 ==> c[1] < 0x90)
  }

  predicate ValidUtf8(t: Text)
  {
    t == []
    || (0 < CharLength(t[0]) <= |t| && WellFormedChar(t[..CharLength(t[0])]) && ValidUtf8(t[CharLength(t[0])..]))
  }

  /** The last boundary at or below a position. */
  function LastBoundary(t: Text, n: nat): (b: nat)
    requires n <= |t|
    ensures b <= n && IsCharBoundary(t, b)
    ensures forall k :: b < k <= n ==> !IsCharBoundary(t, k)
  {
    if IsCharBoundary(t, n) then n else LastBoundary(t, n - 1)
  }

  method SafeBoundary(t: Text, maximum: nat) returns (boundary: nat)
    ensures boundary == LastBoundary(t, if maximum < |t| then maximum else |t|)
  {
    boundary := if maximum < |t| then maximum else |t|;
    while !IsCharBoundary(t, boundary)
      invariant boundary <= |t|
      invariant LastBoundary(t, boundary) == LastBoundary(t, if maximum < |t| then maximum else |t|)
      decreases boundary
    {
      boundary := boundary - 1;
    }
  }

  lemma InsideChar(t: Text, i: nat)
    requires ValidUtf8(t) && t != [] && 0 < i < CharLength(t[0])
    ensures i < |t| && !IsCharBoundary(t, i)
  {
    assert t[..CharLength(t[0])][i] == t[i];
  }

  lemma SliceTwice(t: Text, n: nat, i: nat)
    requires n <= i <= |t|
    ensures t[n..][i - n..] == t[i..]
    ensures t[..i][..n] == t[..n]
    ensures t[..i][n..] == t[n..][..i - n]
  {
  }

  /** Valid text cut at a character boundary gives two valid texts. */
  lemma {:induction false} CutAtBoundary(t: Text, i: nat)
    requires ValidUtf8(t) && i <= |t| && IsCharBoundary(t, i)
    ensures ValidUtf8(t[..i]) && ValidUtf8(t[i..])
    decreases |t|
  {
    if 0 < i < |t| {
      var n := CharLength(t[0]);
      if i < n {
        InsideChar(t, i);
        assert false;
      } else {
        SliceTwice(t, n, i);
        CutAtBoundary(t[n..], i - n);
      }
    } else {
      assert t[..|t|] == t && t[0..] == t;
    }
  }

  /** In valid text a boundary is never more than three bytes away. */
  lemma {:induction false} BoundaryIsNear(t: Text, n: nat)
    requires ValidUtf8(t) && n <= |t|
    ensures n <= LastBoundary(t, n) + 3
    decreases |t|
  {
    if n > 0 && t != [] {
      var c := CharLength(t[0]);
      if n >= c {
        BoundaryIsNear(t[c..], n - c);
        var b := LastBoundary(t[c..], n - c);
        if b == 0 {
          FirstBytes(t, c);
        }
        assert IsCharBoundary(t, c + b);
      }
    }
  }

  /** The byte after a character of valid text starts another one. */
  lemma FirstBytes(t: Text, c: nat)
    requires ValidUtf8(t) && t != [] && c == CharLength(t[0])
    ensures IsCharBoundary(t, c)
  {
    if c < |t| {
      assert t[c..][0] == t[c];
    }
  }

  // ---------- compaction ----------

  function LargeArray(length: nat, preview: seq<Value>): Value
  {
    Object([Field(Ascii("kind"), String(Ascii("large_array"))), Field(Ascii("length"), Number(length)),
            Field(Ascii("preview"), Array(preview)), Field(Ascii("truncated"), Bool(true))])
  }

  function LargeString(length: nat, preview: Text): Value
  {
    Object([Field(Ascii("kind"), String(Ascii("large_string"))), Field(Ascii("length"), Number(length)),
            Field(Ascii("preview"), String(preview)), Field(Ascii("truncated"), Bool(true))])
  }

  function Compact(v: Value): Value
    decreases v, 1
  {
    match v
    case Array(values) =>
      if |values| > LARGE_ARRAY then LargeArray(|values|, CompactAll(values)[..ARRAY_PREVIEW])
      else Array(CompactAll(values))
    case Object(fields) => Object(CompactFields(fields))
    case String(text) =>
      if |text| > STRING_PREVIEW then LargeString(|text|, text[..LastBoundary(text, STRING_PREVIEW)]) else v
    case _ => v
  }

  function CompactAll(values: seq<Value>): (r: seq<Value>)
    ensures |r| == |values|
    decreases values, 0
  {
    if values == [] then [] else [Compact(values[0])] + CompactAll(values[1..])
  }

  function CompactFields(fields: seq<Field>): (r: seq<Field>)
    ensures |r| == |fields|
    decreases fields, 0
  {
    if fields == [] then [] else [Field(fields[0].key, Compact(fields[0].value))] + CompactFields(fields[1..])
  }

  /** Unwraps the variant name around a serialized event, then compacts. */
  function CompactPayload(serialized: Value, eventType: Text): Value
  {
    if serialized.Object? && |serialized.fields| == 1 && serialized.fields[0].key == eventType then
      Compact(serialized.fields[0].value)
    else Compact(serialized)
  }

  // ---------- what compaction guarantees ----------

  /** No array beyond 96 elements and no string value beyond 512 bytes, at any depth. */
  predicate Bounded(v: Value)
    decreases v, 1
  {
    match v
    case Array(values) => |values| <= LARGE_ARRAY && AllBounded(values)
    case Object(fields) => FieldsBounded(fields)
    case String(text) => |text| <= STRING_PREVIEW
    case _ => true
  }

  predicate AllBounded(values: seq<Value>)
    decreases values, 0
  {
    values == [] || (Bounded(values[0]) && AllBounded(values[1..]))
  }

  predicate FieldsBounded(fields: seq<Field>)
    decreases fields, 0
  {
    fields == [] || (Bounded(fields[0].value) && FieldsBounded(fields[1..]))
  }

  lemma {:induction false} BoundedPrefix(values: seq<Value>, n: nat)
    requires AllBounded(values) && n <= |values|
    ensures AllBounded(values[..n])
    decreases |values|
  {
    if n > 0 {
      BoundedPrefix(values[1..], n - 1);
      assert values[..n][1..] == values[1..][..n - 1];
    }
  }

  lemma FourFields(a: Field, b: Field, c: Field, d: Field)
    ensures FieldsBounded([a, b, c, d]) <==>
            Bounded(a.value) && Bounded(b.value) && Bounded(c.value) && Bounded(d.value)
  {
    hide Bounded;
    assert [d][1..] == [] && FieldsBounded([d]) == Bounded(d.value);
    assert [c, d][1..] == [d] && FieldsBounded([c, d]) == (Bounded(c.value) && FieldsBounded([d]));
    assert [b, c, d][1..] == [c, d] && FieldsBounded([b, c, d]) == (Bounded(b.value) && FieldsBounded([c, d]));
    assert [a, b, c, d][1..] == [b, c, d];
  }

  lemma PreviewsAreBounded(length: nat, preview: seq<Value>, text: Text)
    requires |preview| <= LARGE_ARRAY && AllBounded(preview) && |text| <= STRING_PREVIEW
    ensures Bounded(LargeArray(length, preview)) && Bounded(LargeString(length, text))
  {
    hide AllBounded;
    hide FieldsBounded;
    hide Ascii;
    FourFields(Field(Ascii("kind"), String(Ascii("large_array"))), Field(Ascii("length"), Number(length)),
               Field(Ascii("preview"), Array(preview)), Field(Ascii("truncated"), Bool(true)));
    FourFields(Field(Ascii("kind"), String(Ascii("large_string"))), Field(Ascii("length"), Number(length)),
               Field(Ascii("preview"), String(text)), Field(Ascii("truncated"), Bool(true)));
    assert |Ascii("large_array")| == |Ascii("large_string")| - 1 == 11;
  }

  lemma {:induction false} CompactIsBounded(v: Value)
    ensures Bounded(Compact(v))
    decreases v, 1
  {
    hide LargeArray;
    hide LargeString;
    match v
    case Array(values) =>
      CompactAllIsBounded(values);
      if |values| > LARGE_ARRAY {
        BoundedPrefix(CompactAll(values), ARRAY_PREVIEW);
        PreviewsAreBounded(|values|, CompactAll(values)[..ARRAY_PREVIEW], []);
      }
    case Object(fields) =>
      CompactFieldsIsBounded(fields);
    case String(text) =>
      if |text| > STRING_PREVIEW {
        PreviewsAreBounded(|text|, [], text[..LastBoundary(text, STRING_PREVIEW)]);
      }
    case _ =>
  }

  lemma {:induction false} CompactAllIsBounded(values: seq<Value>)
    ensures AllBounded(CompactAll(values))
    decreases values, 0
  {
    if values != [] {
      CompactIsBounded(values[0]);
      CompactAllIsBounded(values[1..]);
      assert CompactAll(values)[1..] == CompactAll(values[1..]);
    }
  }

  lemma {:induction false} CompactFieldsIsBounded(fields: seq<Field>)
    ensures FieldsBounded(CompactFields(fields))
    decreases fields, 0
  {
    if fields != [] {
      CompactIsBounded(fields[0].value);
      CompactFieldsIsBounded(fields[1..]);
      assert CompactFields(fields)[1..] == CompactFields(fields[1..]);
    }
  }

  lemma {:induction false} BoundedIsUnchanged(v: Value)
    requires Bounded(v)
    ensures Compact(v) == v
    decreases v, 1
  {
    match v
    case Array(values) => AllBoundedUnchanged(values);
    case Object(fields) => FieldsBoundedUnchanged(fields);
    case _ =>
  }

  lemma {:induction false} AllBoundedUnchanged(values: seq<Value>)
    requires AllBounded(values)
    ensures CompactAll(values) == values
    decreases values, 0
  {
    if values != [] {
      BoundedIsUnchanged(values[0]);
      AllBoundedUnchanged(values[1..]);
    }
  }

  lemma {:induction false} FieldsBoundedUnchanged(fields: seq<Field>)
    requires FieldsBounded(fields)
    ensures CompactFields(fields) == fields
    decreases fields, 0
  {
    if fields != [] {
      BoundedIsUnchanged(fields[0].value);
      FieldsBoundedUnchanged(fields[1..]);
    }
  }

  /**
   * Every compacted value is within bounds and compacting it again changes nothing; the values
   * compaction leaves alone are exactly those within bounds.
   */
  lemma CompactionSettles(v: Value)
    ensures Bounded(Compact(v))
    ensures Compact(Compact(v)) == Compact(v)
    ensures Compact(v) == v <==> Bounded(v)
  {
    CompactIsBounded(v);
    BoundedIsUnchanged(Compact(v));
    if Bounded(v) {
      BoundedIsUnchanged(v);
    }
  }

  /** A long string is shown by its own first bytes, whole characters only, at most three short of the limit. */
  lemma StringPreview(text: Text)
    requires ValidUtf8(text) && |text| > STRING_PREVIEW
    ensures exists preview: Text ::
              && Compact(String(text)) == LargeString(|text|, preview)
              && preview <= text && ValidUtf8(preview) && ValidUtf8(text[|preview|..])
              && STRING_PREVIEW - 3 <= |preview| <= STRING_PREVIEW
  {
    hide LargeString;
    var n := LastBoundary(text, STRING_PREVIEW);
    CutAtBoundary(text, n);
    BoundaryIsNear(text, STRING_PREVIEW);
    assert text[..n] <= text;
  }

  /** A long array is shown by its length and its first twelve elements, each of them compacted. */
  lemma ArrayPreview(values: seq<Value>)
    requires |values| > 96
    ensures exists preview: seq<Value> ::
              && Compact(Array(values)) == LargeArray(|values|, preview)
              && |preview| == 12 && forall i :: 0 <= i < 12 ==> preview[i] == Compact(values[i])
  {
    hide LargeArray;
    hide Compact;
    var preview := CompactAll(values)[..ARRAY_PREVIEW];
    CompactedEach(values);
    assert Compact(Array(values)) == LargeArray(|values|, preview) by { ArrayIsPreviewed(values); }
  }

  lemma ArrayIsPreviewed(values: seq<Value>)
    requires |values| > 96
    ensures Compact(Array(values)) == LargeArray(|values|, CompactAll(values)[..ARRAY_PREVIEW])
  {
  }

  lemma {:induction false} CompactedEach(values: seq<Value>)
    ensures forall i :: 0 <= i < |values| ==> CompactAll(values)[i] == Compact(values[i])
  {
    hide Compact;
    if values != [] {
      CompactedEach(values[1..]);
    }
  }

  lemma {:induction false} CompactedFields(fields: seq<Field>)
    ensures forall i :: 0 <= i < |fields| ==>
              CompactFields(fields)[i] == Field(fields[i].key, Compact(fields[i].value))
  {
    hide Compact;
    if fields != [] {
      CompactedFields(fields[1..]);
    }
  }

  /** Within an array that is short enough, and within any object, each part is compacted at its own place. */
  lemma PartsAreCompacted(values: seq<Value>, fields: seq<Field>, i: nat)
    ensures |values| <= 96 && i < |values| ==>
              exists after: seq<Value> ::
                Compact(Array(values)) == Array(after) && |after| == |values| && after[i] == Compact(values[i])
    ensures i < |fields| ==>
              exists after: seq<Field> ::
                Compact(Object(fields)) == Object(after) && |after| == |fields| &&
                after[i] == Field(fields[i].key, Compact(fields[i].value))
  {
    CompactedEach(values);
    CompactedFields(fields);
    assert |values| <= 96 ==> Compact(Array(values)) == Array(CompactAll(values));
    assert Compact(Object(fields)) == Object(CompactFields(fields));
  }

  /** What an object has under a key. */
  function Under(v: Value, key: string): Option<Value>
  {
    if v.Object? then FirstUnder(v.fields, Ascii(key)) else None
  }

  function FirstUnder(fields: seq<Field>, key: Text): Option<Value>
  {
    if fields == [] then None else if fields[0].key == key then Some(fields[0].value) else FirstUnder(fields[1..], key)
  }

  lemma FourUnder(a: Field, b: Field, c: Field, d: Field)
    requires a.key != b.key && a.key != c.key && a.key != d.key && b.key != c.key && b.key != d.key && c.key != d.key
    ensures var all := [a, b, c, d];
            && FirstUnder(all, a.key) == Some(a.value) && FirstUnder(all, b.key) == Some(b.value)
            && FirstUnder(all, c.key) == Some(c.value) && FirstUnder(all, d.key) == Some(d.value)
  {
    var all := [a, b, c, d];
    assert all[1..] == [b, c, d];
    assert [b, c, d][1..] == [c, d];
    assert [c, d][1..] == [d];
    assert FirstUnder([d], d.key) == Some(d.value);
    assert FirstUnder([c, d], c.key) == Some(c.value) && FirstUnder([c, d], d.key) == Some(d.value);
    assert FirstUnder([b, c, d], c.key) == Some(c.value) && FirstUnder([b, c, d], d.key) == Some(d.value);
  }

  lemma KeysDiffer()
    ensures var kind, length := Ascii("kind"), Ascii("length");
            var preview, truncated := Ascii("preview"), Ascii("truncated");
            && kind != length && kind != preview && kind != truncated
            && length != preview && length != truncated && preview != truncated
  {
  }

  /** What a reader of the compacted value finds: its kind, the full length, the preview, and the mark. */
  ghost predicate ReadsAsPreview(v: Value, kind: string, length: nat, preview: Value)
  {
    && Under(v, "kind") == Some(String(Ascii(kind))) && Under(v, "length") == Some(Number(length))
    && Under(v, "preview") == Some(preview) && Under(v, "truncated") == Some(Bool(true))
  }

  /** A long array reads as a preview of its first twelve elements, a long string as one of its first bytes. */
  lemma PreviewsRead(values: seq<Value>, text: Text)
    ensures |values| > 96 ==>
              ReadsAsPreview(Compact(Array(values)), "large_array", |values|, Array(CompactAll(values)[..12]))
    ensures |text| > 512 ==>
              ReadsAsPreview(Compact(String(text)), "large_string", |text|, String(text[..LastBoundary(text, 512)]))
  {
    hide Ascii;
    hide FirstUnder;
    KeysDiffer();
    if |values| > 96 {
      FourUnder(Field(Ascii("kind"), String(Ascii("large_array"))), Field(Ascii("length"), Number(|values|)),
                Field(Ascii("preview"), Array(CompactAll(values)[..ARRAY_PREVIEW])),
                Field(Ascii("truncated"), Bool(true)));
    }
    if |text| > 512 {
      FourUnder(Field(Ascii("kind"), String(Ascii("large_string"))), Field(Ascii("length"), Number(|text|)),
                Field(Ascii("preview"), String(text[..LastBoundary(text, STRING_PREVIEW)])),
                Field(Ascii("truncated"), Bool(true)));
    }
  }

  /** A payload is shown within bounds, without the variant name around it if that is its only key. */
  lemma PayloadIsBounded(serialized: Value, eventType: Text, inner: Value)
    ensures Bounded(CompactPayload(serialized, eventType))
    ensures CompactPayload(Object([Field(eventType, inner)]), eventType) == Compact(inner)
    ensures (forall value :: serialized != Object([Field(eventType, value)])) ==>
              CompactPayload(serialized, eventType) == Compact(serialized)
    ensures Compact(CompactPayload(serialized, eventType)) == CompactPayload(serialized, eventType)
  {
    if serialized.Object? && |serialized.fields| == 1 && serialized.fields[0].key == eventType {
      CompactionSettles(serialized.fields[0].value);
      assert serialized.fields == [Field(eventType, serialized.fields[0].value)];
    } else {
      CompactionSettles(serialized);
    }
  }

  // ---------- valid text stays valid ----------

  /** Every string and every key, at any depth, is valid text. */
  predicate Legible(v: Value)
    decreases v, 1
  {
    match v
    case Array(values) => AllLegible(values)
    case Object(fields) => FieldsLegible(fields)
    case String(text) => ValidUtf8(text)
    case _ => true
  }

  predicate AllLegible(values: seq<Value>)
    decreases values, 0
  {
    values == [] || (Legible(values[0]) && AllLegible(values[1..]))
  }

  predicate FieldsLegible(fields: seq<Field>)
    decreases fields, 0
  {
    fields == [] || (ValidUtf8(fields[0].key) && Legible(fields[0].value) && FieldsLegible(fields[1..]))
  }

  lemma {:induction false} AsciiIsValid(t: Text)
    requires forall i :: 0 <= i < |t| ==> t[i] < 128
    ensures ValidUtf8(t)
  {
    if t != [] {
      AsciiIsValid(t[1..]);
    }
  }

  lemma LiteralIsValid(s: string)
    ensures ValidUtf8(Ascii(s))
  {
    AsciiIsValid(Ascii(s));
  }

  lemma {:induction false} LegiblePrefix(values: seq<Value>, n: nat)
    requires AllLegible(values) && n <= |values|
    ensures AllLegible(values[..n])
    decreases |values|
  {
    if n > 0 {
      LegiblePrefix(values[1..], n - 1);
      assert values[..n][1..] == values[1..][..n - 1];
    }
  }

  lemma FourLegibleFields(a: Field, b: Field, c: Field, d: Field)
    requires ValidUtf8(a.key) && ValidUtf8(b.key) && ValidUtf8(c.key) && ValidUtf8(d.key)
    requires Legible(a.value) && Legible(b.value) && Legible(c.value) && Legible(d.value)
    ensures FieldsLegible([a, b, c, d])
  {
    hide ValidUtf8;
    hide Legible;
    assert [d][1..] == [] && FieldsLegible([d]);
    assert [c, d][1..] == [d] && FieldsLegible([c, d]);
    assert [b, c, d][1..] == [c, d] && FieldsLegible([b, c, d]);
    assert [a, b, c, d][1..] == [b, c, d];
  }

  lemma PreviewsAreLegible(length: nat, preview: seq<Value>, text: Text)
    ensures AllLegible(preview) ==> Legible(LargeArray(length, preview))
    ensures ValidUtf8(text) ==> Legible(LargeString(length, text))
  {
    hide ValidUtf8;
    hide Ascii;
    LiteralIsValid("kind");
    LiteralIsValid("large_array");
    LiteralIsValid("large_string");
    LiteralIsValid("length");
    LiteralIsValid("preview");
    LiteralIsValid("truncated");
    if AllLegible(preview) {
      FourLegibleFields(Field(Ascii("kind"), String(Ascii("large_array"))), Field(Ascii("length"), Number(length)),
                        Field(Ascii("preview"), Array(preview)), Field(Ascii("truncated"), Bool(true)));
    }
    if ValidUtf8(text) {
      FourLegibleFields(Field(Ascii("kind"), String(Ascii("large_string"))), Field(Ascii("length"), Number(length)),
                        Field(Ascii("preview"), String(text)), Field(Ascii("truncated"), Bool(true)));
    }
  }

  /** Compaction of a whole value never cuts a character: valid text everywhere stays valid everywhere. */
  lemma {:induction false} CompactIsLegible(v: Value)
    requires Legible(v)
    ensures Legible(Compact(v))
    decreases v, 1
  {
    hide ValidUtf8;
    hide LargeArray;
    hide LargeString;
    match v
    case Array(values) =>
      CompactAllIsLegible(values);
      if |values| > LARGE_ARRAY {
        LegiblePrefix(CompactAll(values), ARRAY_PREVIEW);
        PreviewsAreLegible(|values|, CompactAll(values)[..ARRAY_PREVIEW], []);
      }
    case Object(fields) => CompactFieldsIsLegible(fields);
    case String(text) =>
      if |text| > STRING_PREVIEW {
        var n := LastBoundary(text, STRING_PREVIEW);
        CutAtBoundary(text, n);
        PreviewsAreLegible(|text|, [], text[..n]);
      }
    case _ =>
  }

  lemma {:induction false} CompactAllIsLegible(values: seq<Value>)
    requires AllLegible(values)
    ensures AllLegible(CompactAll(values))
    decreases values, 0
  {
    if values != [] {
      CompactIsLegible(values[0]);
      CompactAllIsLegible(values[1..]);
      assert CompactAll(values)[1..] == CompactAll(values[1..]);
    }
  }

  lemma {:induction false} CompactFieldsIsLegible(fields: seq<Field>)
    requires FieldsLegible(fields)
    ensures FieldsLegible(CompactFields(fields))
    decreases fields, 0
  {
    if fields != [] {
      CompactIsLegible(fields[0].value);
      CompactFieldsIsLegible(fields[1..]);
      assert CompactFields(fields)[1..] == CompactFields(fields[1..]);
    }
  }
}
