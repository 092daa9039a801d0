/** The timestamp-to-sequence index on disk, over big-endian keys, and the ordered map it refines. */
module SequenceIndexes {
  import opened Bytes
  import opened Trees

  const KEY_WIDTH: nat := 16
  const VALUE_WIDTH: nat := 8

  type u128 = x: int | 0 <= x < 0x1_0000_0000_0000_0000_0000_0000_0000_0000
  type u64 = x: int | 0 <= x < 0x1_0000_0000_0000_0000

  datatype Pair = Pair(key: u128, value: u64)

  lemma KeyFits(k: u128)
    ensures k < Pow256(KEY_WIDTH)
  {
    Widths();
    assert Pow256(9) == 256 * Pow256(8) && Pow256(10) == 256 * Pow256(9) && Pow256(11) == 256 * Pow256(10);
    assert Pow256(12) == 256 * Pow256(11) && Pow256(13) == 256 * Pow256(12) && Pow256(14) == 256 * Pow256(13);
    assert Pow256(15) == 256 * Pow256(14) && Pow256(16) == 256 * Pow256(15);
  }

  // ---------- the ordered map ----------

  ghost predicate Ordered(ps: seq<Pair>)
  {
    forall i, j :: 0 <= i < j < |ps| ==> ps[i].key < ps[j].key
  }

  function PairsPut(ps: seq<Pair>, key: u128, value: u64): seq<Pair>
  {
    if ps == [] then [Pair(key, value)]
    else if ps[0].key == key then [Pair(key, value)] + ps[1..]
    else if key < ps[0].key then [Pair(key, value)] + ps
    else [ps[0]] + PairsPut(ps[1..], key, value)
  }

  function PairsGet(ps: seq<Pair>, key: u128): Option<u64>
  {
    if ps == [] then None else if ps[0].key == key then Some(ps[0].value) else PairsGet(ps[1..], key)
  }

  /** The value under the first key at or after the given one. */
  function PairsSeek(ps: seq<Pair>, key: u128): Option<u64>
  {
    if ps == [] then None else if ps[0].key < key then PairsSeek(ps[1..], key) else Some(ps[0].value)
  }

  function PairMap(ps: seq<Pair>): map<u128, u64>
  {
    if ps == [] then map[] else PairMap(ps[1..])[ps[0].key := ps[0].value]
  }

  lemma {:induction false} PairKeys(ps: seq<Pair>)
    ensures forall k: u128 :: k in PairMap(ps) <==> exists i :: 0 <= i < |ps| && ps[i].key == k
  {
    if ps != [] {
      PairKeys(ps[1..]);
      forall k: u128 ensures k in PairMap(ps) <==> exists i :: 0 <= i < |ps| && ps[i].key == k {
        if i :| 0 <= i < |ps| && ps[i].key == k {
          if i > 0 { assert ps[1..][i - 1].key == k; }
        }
        if k in PairMap(ps[1..]) {
          var j :| 0 <= j < |ps[1..]| && ps[1..][j].key == k;
          assert ps[j + 1].key == k;
        }
      }
    }
  }

  lemma {:induction false} PutUpdates(ps: seq<Pair>, key: u128, value: u64)
    ensures PairMap(PairsPut(ps, key, value)) == PairMap(ps)[key := value]
  {
    var after := PairsPut(ps, key, value);
    if ps == [] || ps[0].key == key || key < ps[0].key {
      assert after[1..] == if ps == [] then [] else if ps[0].key == key then ps[1..] else ps;
    } else {
      PutUpdates(ps[1..], key, value);
      assert after[1..] == PairsPut(ps[1..], key, value);
    }
  }

  lemma PutHead(ps: seq<Pair>, key: u128, value: u64, low: u128)
    requires low < key && forall i :: 0 <= i < |ps| ==> low < ps[i].key
    ensures forall i :: 0 <= i < |PairsPut(ps, key, value)| ==> low < PairsPut(ps, key, value)[i].key
  {
    hide PairsPut;
    hide PairMap;
    PutUpdates(ps, key, value);
    PairKeys(ps);
    PairKeys(PairsPut(ps, key, value));
    forall i | 0 <= i < |PairsPut(ps, key, value)| ensures low < PairsPut(ps, key, value)[i].key {
      assert PairsPut(ps, key, value)[i].key in PairMap(PairsPut(ps, key, value));
    }
  }

  /** Inserting keeps the keys in order. */
  lemma {:induction false} PutKeepsOrder(ps: seq<Pair>, key: u128, value: u64)
    requires Ordered(ps)
    ensures Ordered(PairsPut(ps, key, value))
  {
    if ps != [] && ps[0].key < key {
      PutKeepsOrder(ps[1..], key, value);
      PutHead(ps[1..], key, value, ps[0].key);
    }
  }

  lemma {:induction false} GetIsMap(ps: seq<Pair>, key: u128)
    ensures PairsGet(ps, key) == if key in PairMap(ps) then Some(PairMap(ps)[key]) else None
  {
    if ps != [] {
      GetIsMap(ps[1..], key);
    }
  }

  /** The position a seek answers from. */
  function SeekPosition(ps: seq<Pair>, key: u128): (i: nat)
    ensures i <= |ps|
  {
    if ps == [] || key <= ps[0].key then 0 else 1 + SeekPosition(ps[1..], key)
  }

  lemma {:induction false} SeekSplits(ps: seq<Pair>, key: u128)
    requires Ordered(ps)
    ensures var i := SeekPosition(ps, key);
            && PairsSeek(ps, key) == (if i < |ps| then Some(ps[i].value) else None)
            && (forall j :: 0 <= j < i ==> ps[j].key < key)
            && (forall j :: i <= j < |ps| ==> key <= ps[j].key)
  {
    if ps != [] && ps[0].key < key {
      SeekSplits(ps[1..], key);
      assert forall j :: 0 < j < |ps| ==> ps[j] == ps[1..][j - 1];
    }
  }

  lemma {:induction false} ValueInMap(ps: seq<Pair>, i: nat)
    requires Ordered(ps) && i < |ps|
    ensures ps[i].key in PairMap(ps) && PairMap(ps)[ps[i].key] == ps[i].value
  {
    if i > 0 {
      ValueInMap(ps[1..], i - 1);
    }
  }

  /** The entry under the least key at or after the target; nothing exactly when there is no such key. */
  ghost predicate IsSeek(entries: map<u128, u64>, key: u128, found: Option<u64>)
  {
    && (found.None? <==> forall k :: k in entries ==> k < key)
    && (found.Some? ==>
          exists least :: least in entries && key <= least && entries[least] == found.value
            && forall k :: k in entries && key <= k ==> least <= k)
  }

  /** The recursive search over the ordered pairs finds the entry under the least key at or after the target. */
  lemma SeekIsLeast(ps: seq<Pair>, key: u128)
    requires Ordered(ps)
    ensures IsSeek(PairMap(ps), key, PairsSeek(ps, key))
  {
    hide PairMap;
    hide PairsSeek;
    hide SeekPosition;
    SeekSplits(ps, key);
    PairKeys(ps);
    var i := SeekPosition(ps, key);
    if i < |ps| {
      ValueInMap(ps, i);
      var least := ps[i].key;
      forall k | k in PairMap(ps) && key <= k ensures least <= k {
        var j :| 0 <= j < |ps| && ps[j].key == k;
      }
    }
  }

  /** So any two indexes with the same entries answer a seek alike. */
  lemma SeekIsDetermined(entries: map<u128, u64>, key: u128, a: Option<u64>, b: Option<u64>)
    requires IsSeek(entries, key, a) && IsSeek(entries, key, b)
    ensures a == b
  {
    if a.Some? && b.Some? {
      var x :| x in entries && key <= x && entries[x] == a.value && forall k :: k in entries && key <= k ==> x <= k;
      var y :| y in entries && key <= y && entries[y] == b.value && forall k :: k in entries && key <= k ==> y <= k;
      assert x == y;
    }
  }

  class InMemSequenceIndex {
    var index: seq<Pair>

    ghost predicate Valid()
      reads this
    {
      Ordered(index)
    }

    constructor ()
      ensures Valid() && index == []
    {
      index := [];
    }

    method Insert(key: u128, value: u64)
      requires Valid()
      modifies this
      ensures Valid() && PairMap(index) == PairMap(old(index))[key := value]
    {
      PutUpdates(index, key, value);
      PutKeepsOrder(index, key, value);
      index := PairsPut(index, key, value);
    }

    method Get(key: u128) returns (value: Option<u64>)
      requires Valid()
      ensures value == if key in PairMap(index) then Some(PairMap(index)[key]) else None
    {
      GetIsMap(index, key);
      value := PairsGet(index, key);
    }

    method SeekAt(key: u128) returns (value: Option<u64>)
      requires Valid()
      ensures IsSeek(PairMap(index), key, value)
    {
      SeekIsLeast(index, key);
      value := PairsSeek(index, key);
    }
  }

  // ---------- the disk index is the ordered map, encoded ----------

  function Encoded(p: Pair): Entry { Entry(BigEndian(p.key, KEY_WIDTH), BigEndian(p.value, VALUE_WIDTH)) }

  function EncodedAll(ps: seq<Pair>): (t: Tree)
    ensures |t| == |ps|
  {
    seq(|ps|, i requires 0 <= i < |ps| => Encoded(ps[i]))
  }

  function DecodedValue(bytes: seq<byte>): Option<u64>
  {
    if |bytes| != VALUE_WIDTH then None
    else if FromBigEndian(bytes) < 0x1_0000_0000_0000_0000 then Some(FromBigEndian(bytes)) else None
  }

  lemma ValueDecodes(v: u64)
    ensures DecodedValue(BigEndian(v, VALUE_WIDTH)) == Some(v)
  {
    Widths();
    BigEndianDecodes(v, VALUE_WIDTH);
  }

  lemma KeysCompare(x: u128, y: u128)
    ensures LexLess(BigEndian(x, KEY_WIDTH), BigEndian(y, KEY_WIDTH)) <==> x < y
    ensures BigEndian(x, KEY_WIDTH) == BigEndian(y, KEY_WIDTH) <==> x == y
  {
    KeyFits(x);
    KeyFits(y);
    BigEndianPreservesOrder(x, y, KEY_WIDTH);
  }

  lemma {:induction false} EncodedPut(ps: seq<Pair>, key: u128, value: u64)
    ensures Put(EncodedAll(ps), BigEndian(key, KEY_WIDTH), BigEndian(value, VALUE_WIDTH)) ==
              EncodedAll(PairsPut(ps, key, value))
  {
    hide BigEndian;
    hide LexLess;
    if ps != [] {
      KeysCompare(key, ps[0].key);
      EncodedPut(ps[1..], key, value);
      assert EncodedAll(ps)[1..] == EncodedAll(ps[1..]);
    }
  }

  lemma {:induction false} EncodedSeek(ps: seq<Pair>, key: u128)
    ensures var found := Seek(EncodedAll(ps), BigEndian(key, KEY_WIDTH));
            && (found.Some? <==> PairsSeek(ps, key).Some?)
            && (found.Some? ==> DecodedValue(found.value.value) == PairsSeek(ps, key))
    ensures var got := Lookup(EncodedAll(ps), BigEndian(key, KEY_WIDTH));
            && (got.Some? <==> PairsGet(ps, key).Some?)
            && (got.Some? ==> DecodedValue(got.value) == PairsGet(ps, key))
  {
    hide BigEndian;
    hide LexLess;
    hide DecodedValue;
    if ps != [] {
      KeysCompare(key, ps[0].key);
      KeysCompare(ps[0].key, key);
      ValueDecodes(ps[0].value);
      EncodedSeek(ps[1..], key);
      assert EncodedAll(ps)[1..] == EncodedAll(ps[1..]);
    }
  }

  datatype IndexError = CorruptValue

  class SledSequenceIndex {
    var db: Tree
    /** The ordered map this tree encodes. */
    ghost var pairs: seq<Pair>

    ghost predicate Valid()
      reads this
    {
      Ordered(pairs) && db == EncodedAll(pairs)
    }

    constructor ()
      ensures Valid() && pairs == []
    {
      db := [];
      pairs := [];
    }

    method Insert(key: u128, value: u64)
      requires Valid()
      modifies this
      ensures Valid() && PairMap(pairs) == PairMap(old(pairs))[key := value]
    {
      PutUpdates(pairs, key, value);
      PutKeepsOrder(pairs, key, value);
      EncodedPut(pairs, key, value);
      db := Put(db, BigEndian(key, KEY_WIDTH), BigEndian(value, VALUE_WIDTH));
      pairs := PairsPut(pairs, key, value);
    }

    method Get(key: u128) returns (r: Result<Option<u64>, IndexError>)
      requires Valid()
      ensures r == Ok(if key in PairMap(pairs) then Some(PairMap(pairs)[key]) else None)
    {
      EncodedSeek(pairs, key);
      GetIsMap(pairs, key);
      var found := Lookup(db, BigEndian(key, KEY_WIDTH));
      if found.None? {
        return Ok(None);
      }
      var value := DecodedValue(found.value);
      r := if value.Some? then Ok(value) else Err(CorruptValue);
    }

    /** A range scan from the encoded key on. */
    method SeekAt(key: u128) returns (r: Result<Option<u64>, IndexError>)
      requires Valid()
      ensures r.Ok? && IsSeek(PairMap(pairs), key, r.value)
    {
      SeekIsLeast(pairs, key);
      EncodedSeek(pairs, key);
      var found := Seek(db, BigEndian(key, KEY_WIDTH));
      if found.None? {
        return Ok(None);
      }
      var value := DecodedValue(found.value.value);
      r := if value.Some? then Ok(value) else Err(CorruptValue);
    }
  }

  /** Any run of insertions leaves the disk index holding the encoding of the in-memory one. */
  function Inserted(ps: seq<Pair>, inserts: seq<Pair>): seq<Pair>
    decreases |inserts|
  {
    if inserts == [] then ps else Inserted(PairsPut(ps, inserts[0].key, inserts[0].value), inserts[1..])
  }

  function InsertedOnDisk(t: Tree, inserts: seq<Pair>): Tree
    decreases |inserts|
  {
    if inserts == [] then t
    else InsertedOnDisk(Put(t, BigEndian(inserts[0].key, KEY_WIDTH), BigEndian(inserts[0].value, VALUE_WIDTH)),
           inserts[1..])
  }

  /**
   * After the same insertions, overwriting ones included, the two indexes answer every seek
   * alike: big-endian byte order is number order.
   */
  lemma {:induction false} IndexesAgree(ps: seq<Pair>, inserts: seq<Pair>, key: u128)
    ensures InsertedOnDisk(EncodedAll(ps), inserts) == EncodedAll(Inserted(ps, inserts))
    ensures var found := Seek(InsertedOnDisk(EncodedAll(ps), inserts), BigEndian(key, KEY_WIDTH));
            && (found.Some? <==> PairsSeek(Inserted(ps, inserts), key).Some?)
            && (found.Some? ==> DecodedValue(found.value.value) == PairsSeek(Inserted(ps, inserts), key))
    decreases |inserts|
  {
    hide BigEndian;
    hide DecodedValue;
    if inserts == [] {
      EncodedSeek(ps, key);
    } else {
      EncodedPut(ps, inserts[0].key, inserts[0].value);
      IndexesAgree(PairsPut(ps, inserts[0].key, inserts[0].value), inserts[1..], key);
    }
  }
}
