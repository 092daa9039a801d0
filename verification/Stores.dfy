/** The disk key-value store and the in-memory one, which must answer alike. */
module Stores {
  import opened Bytes
  import opened Trees

  datatype Insert = Insert(key: Key, value: seq<byte>)

  // ---------- what both stores mean ----------

  function InsertAll(db: map<Key, seq<byte>>, batch: seq<Insert>): map<Key, seq<byte>>
    decreases |batch|
  {
    if batch == [] then db else InsertAll(db[batch[0].key := batch[0].value], batch[1..])
  }

  predicate NonePresent(db: map<Key, seq<byte>>, batch: seq<Insert>)
  {
    forall i :: 0 <= i < |batch| ==> batch[i].key !in db
  }

  lemma {:induction false} InsertAllSnoc(db: map<Key, seq<byte>>, batch: seq<Insert>, last: Insert)
    ensures InsertAll(db, batch + [last]) == InsertAll(db, batch)[last.key := last.value]
    decreases |batch|
  {
    if batch == [] {
      assert [last][1..] == [];
    } else {
      assert (batch + [last])[1..] == batch[1..] + [last];
      InsertAllSnoc(db[batch[0].key := batch[0].value], batch[1..], last);
    }
  }

  lemma {:induction false} InsertAllKeeps(db: map<Key, seq<byte>>, batch: seq<Insert>, k: Key)
    requires forall i :: 0 <= i < |batch| ==> batch[i].key != k
    ensures k in InsertAll(db, batch) <==> k in db
    ensures k in db ==> InsertAll(db, batch)[k] == db[k]
    decreases |batch|
  {
    if batch != [] {
      InsertAllKeeps(db[batch[0].key := batch[0].value], batch[1..], k);
    }
  }

  /** A conditional batch writes all of its keys or none, and never overwrites. */
  function IfAbsent(db: map<Key, seq<byte>>, batch: seq<Insert>): (map<Key, seq<byte>>, bool)
  {
    if NonePresent(db, batch) then (InsertAll(db, batch), true) else (db, false)
  }

  lemma {:induction false} InsertAllHas(db: map<Key, seq<byte>>, batch: seq<Insert>, i: nat)
    requires i < |batch|
    ensures batch[i].key in InsertAll(db, batch)
    ensures (forall j :: i < j < |batch| ==> batch[j].key != batch[i].key) ==>
              InsertAll(db, batch)[batch[i].key] == batch[i].value
    decreases |batch|
  {
    var n := |batch| - 1;
    assert batch == batch[..n] + [batch[n]];
    InsertAllSnoc(db, batch[..n], batch[n]);
    if i < n {
      InsertAllHas(db, batch[..n], i);
    }
  }

  /** All or nothing: what was stored stays as it was, and either every key of the batch is new or no key is added. */
  lemma ConditionalBatchIsAtomic(db: map<Key, seq<byte>>, batch: seq<Insert>)
    ensures var (after, inserted) := IfAbsent(db, batch);
            && (forall k :: k in db ==> k in after && after[k] == db[k])
            && (!inserted ==> after == db && exists i :: 0 <= i < |batch| && batch[i].key in db)
            && (inserted ==> forall i :: 0 <= i < |batch| ==> batch[i].key !in db && batch[i].key in after)
  {
    if NonePresent(db, batch) {
      forall k | k in db ensures k in InsertAll(db, batch) && InsertAll(db, batch)[k] == db[k] {
        InsertAllKeeps(db, batch, k);
      }
      forall i | 0 <= i < |batch| ensures batch[i].key in InsertAll(db, batch) {
        InsertAllHas(db, batch, i);
      }
    }
  }

  // ---------- the expected-keys message ----------

  function InsertKey(keys: seq<Key>, k: Key): seq<Key>
  {
    if keys == [] then [k]
    else if keys[0] == k then keys
    else if LexLess(k, keys[0]) then [k] + keys
    else [keys[0]] + InsertKey(keys[1..], k)
  }

  /** Sorting and removing duplicates, as the message constructor does. */
  function SortDedup(keys: seq<Key>): seq<Key>
  {
    if keys == [] then [] else InsertKey(SortDedup(keys[1..]), keys[0])
  }

  lemma {:induction false} InsertKeyMembers(keys: seq<Key>, k: Key)
    ensures forall x :: x in InsertKey(keys, k) <==> x in keys || x == k
    ensures AscendingKeys(keys) ==> AscendingKeys(InsertKey(keys, k))
  {
    if keys != [] && keys[0] != k {
      InsertKeyMembers(keys[1..], k);
      if LexLess(k, keys[0]) {
        if AscendingKeys(keys) {
          forall j | 0 <= j < |keys| ensures LexLess(k, keys[j]) {
            if j > 0 { LexTransitive(k, keys[0], keys[j]); }
          }
        }
      } else {
        LexTotal(k, keys[0]);
        var rest := InsertKey(keys[1..], k);
        forall x ensures x in [keys[0]] + rest <==> x in keys || x == k {
          assert x in keys <==> x == keys[0] || x in keys[1..];
        }
        if AscendingKeys(keys) {
          forall j | 0 <= j < |rest| ensures LexLess(keys[0], rest[j]) {
            assert rest[j] in rest;
            if rest[j] in keys[1..] { var i :| 0 <= i < |keys[1..]| && keys[1..][i] == rest[j]; }
          }
        }
      }
    }
  }

  lemma {:induction false} SortDedupMembers(keys: seq<Key>)
    ensures AscendingKeys(SortDedup(keys))
    ensures forall x :: x in SortDedup(keys) <==> x in keys
  {
    if keys != [] {
      SortDedupMembers(keys[1..]);
      InsertKeyMembers(SortDedup(keys[1..]), keys[0]);
      forall x ensures x in SortDedup(keys) <==> x in keys {
        assert x in keys <==> x == keys[0] || x in keys[1..];
      }
    }
  }

  function KeySet(keys: seq<Key>): set<Key> { set i | 0 <= i < |keys| :: keys[i] }

  ghost predicate Distinct(keys: seq<Key>) { forall i, j :: 0 <= i < j < |keys| ==> keys[i] != keys[j] }

  lemma {:induction false} DistinctSize(keys: seq<Key>)
    requires Distinct(keys)
    ensures |KeySet(keys)| == |keys|
  {
    if keys != [] {
      var n := |keys| - 1;
      DistinctSize(keys[..n]);
      assert KeySet(keys) == KeySet(keys[..n]) + {keys[n]};
    }
  }

  // ---------- the disk store ----------

  class SledDb {
    var db: Tree

    ghost predicate Valid()
      reads this
    {
      Ascending(db)
    }

    ghost function Contents(): map<Key, seq<byte>>
      reads this
    {
      AsMap(db)
    }

    constructor ()
      ensures Valid() && Contents() == map[]
    {
      db := [];
    }

    method Insert(msg: Insert)
      requires Valid()
      modifies this
      ensures Valid() && Contents() == old(Contents())[msg.key := msg.value]
    {
      PutIsUpdate(db, msg.key, msg.value);
      PutAscends(db, msg.key, msg.value);
      db := Put(db, msg.key, msg.value);
    }

    method InsertBatch(msgs: seq<Insert>)
      requires Valid()
      modifies this
      ensures Valid() && Contents() == InsertAll(old(Contents()), msgs)
    {
      for i := 0 to |msgs|
        invariant Valid() && Contents() == InsertAll(old(Contents()), msgs[..i])
      {
        Insert(msgs[i]);
        InsertAllSnoc(old(Contents()), msgs[..i], msgs[i]);
        assert msgs[..i + 1] == msgs[..i] + [msgs[i]];
      }
      assert msgs[..|msgs|] == msgs;
    }

    /** One transaction: aborts at the first key that exists, otherwise inserts them all. */
    method InsertBatchIfAbsent(msgs: seq<Insert>) returns (inserted: bool)
      requires Valid()
      modifies this
      ensures Valid()
      ensures (Contents(), inserted) == IfAbsent(old(Contents()), msgs)
    {
      for i := 0 to |msgs|
        invariant db == old(db)
        invariant forall j :: 0 <= j < i ==> msgs[j].key !in Contents()
      {
        LookupIsMap(db, msgs[i].key);
        if Lookup(db, msgs[i].key).Some? {
          return false;
        }
      }
      InsertBatch(msgs);
      return true;
    }

    method Remove(key: Key)
      requires Valid()
      modifies this
      ensures Valid() && Contents() == old(Contents()) - {key}
    {
      CutIsRemoval(db, key);
      CutAscends(db, key);
      db := Cut(db, key);
    }

    method Get(key: Key) returns (value: Option<seq<byte>>)
      requires Valid()
      ensures value == if key in Contents() then Some(Contents()[key]) else None
    {
      LookupIsMap(db, key);
      value := Lookup(db, key);
    }

    /** Looks at no more than one key beyond the expected ones. */
    method HasExactKeys(keys: seq<Key>) returns (same: bool)
      requires Valid()
      ensures same <==> Contents().Keys == KeySet(keys)
    {
      var expected := SortDedup(keys);
      var all := KeysOf(db);
      var observed := if |expected| + 1 < |all| then all[..|expected| + 1] else all;
      SortDedupMembers(keys);
      KeysOfMembers(db);
      same := |observed| == |expected|;
      if same {
        var i := 0;
        while i < |expected|
          invariant 0 <= i <= |expected|
          invariant forall j :: 0 <= j < i ==> observed[j] == expected[j]
        {
          if observed[i] != expected[i] {
            SameKeysSameList(db, keys);
            return false;
          }
          i := i + 1;
        }
        assert observed == expected;
      }
      SameKeysSameList(db, keys);
    }
  }

  /** The tree's key list is the normalized expectation exactly when the key sets are equal. */
  lemma SameKeysSameList(t: Tree, keys: seq<Key>)
    requires Ascending(t)
    ensures KeysOf(t) == SortDedup(keys) <==> AsMap(t).Keys == KeySet(keys)
  {
    SortDedupMembers(keys);
    KeysOfMembers(t);
    if AsMap(t).Keys == KeySet(keys) {
      forall k ensures k in KeysOf(t) <==> k in SortDedup(keys) {
        assert k in KeysOf(t) <==> k in AsMap(t).Keys;
        assert k in KeySet(keys) <==> k in keys;
      }
      AscendingIsUnique(KeysOf(t), SortDedup(keys));
    } else if KeysOf(t) == SortDedup(keys) {
      forall k ensures k in AsMap(t).Keys <==> k in KeySet(keys) {
        assert k in KeySet(keys) <==> k in keys;
      }
    }
  }

  // ---------- the in-memory store ----------

  datatype DataOp = Inserted(msg: Insert) | Removed(key: Key)

  /** The operations a batch is recorded as. */
  function Operations(commands: seq<Insert>): (ops: seq<DataOp>)
    ensures |ops| == |commands|
  {
    seq(|commands|, i requires 0 <= i < |commands| => Inserted(commands[i]))
  }

  /** The entries after recorded operations are carried out again. */
  function CarriedOut(db: map<Key, seq<byte>>, ops: seq<DataOp>): map<Key, seq<byte>>
    decreases |ops|
  {
    if ops == [] then db
    else
      CarriedOut(match ops[0] case Inserted(msg) => db[msg.key := msg.value] case Removed(key) => db - {key},
                 ops[1..])
  }

  /** What a batch is recorded as does to any store what the batch does. */
  lemma {:induction false} RecordedBatchRepeats(db: map<Key, seq<byte>>, commands: seq<Insert>)
    ensures CarriedOut(db, Operations(commands)) == InsertAll(db, commands)
    decreases |commands|
  {
    if commands != [] {
      RecordedBatchRepeats(db[commands[0].key := commands[0].value], commands[1..]);
      assert Operations(commands)[1..] == Operations(commands[1..]);
    }
  }

  class InMemKvStore {
    var db: map<Key, seq<byte>>
    var log: seq<DataOp>
    const capture: bool

    constructor (capture: bool)
      ensures db == map[] && log == [] && this.capture == capture
    {
      db := map[];
      log := [];
      this.capture := capture;
    }

    method Insert(key: Key, value: seq<byte>, op: Option<DataOp>)
      modifies this
      ensures db == old(db)[key := value]
      ensures log == if capture && op.Some? then old(log) + [op.value] else old(log)
    {
      db := db[key := value];
      if capture {
        if op.Some? {
          log := log + [op.value];
        }
      }
    }

    method Remove(key: Key, op: Option<DataOp>)
      modifies this
      ensures db == old(db) - {key}
      ensures log == if capture && op.Some? then old(log) + [op.value] else old(log)
    {
      db := db - {key};
      if capture {
        if op.Some? {
          log := log + [op.value];
        }
      }
    }

    method Get(key: Key) returns (value: Option<seq<byte>>)
      ensures value == if key in db then Some(db[key]) else None
    {
      value := if key in db then Some(db[key]) else None;
    }

    /** The batch message handler of the actor around this store. */
    method HandleInsertBatch(commands: seq<Insert>)
      modifies this
      ensures db == InsertAll(old(db), commands)
      ensures log == if capture then old(log) + Operations(commands) else old(log)
    {
      for i := 0 to |commands|
        invariant db == InsertAll(old(db), commands[..i])
        invariant log == if capture then old(log) + Operations(commands[..i]) else old(log)
      {
        Insert(commands[i].key, commands[i].value, Some(Inserted(commands[i])));
        InsertAllSnoc(old(db), commands[..i], commands[i]);
        assert commands[..i + 1] == commands[..i] + [commands[i]];
      }
      assert commands[..|commands|] == commands;
    }

    method HandleInsertBatchIfAbsent(commands: seq<Insert>) returns (inserted: bool)
      modifies this
      ensures (db, inserted) == IfAbsent(old(db), commands)
      ensures log == if capture && inserted then old(log) + Operations(commands) else old(log)
    {
      for i := 0 to |commands|
        invariant db == old(db) && log == old(log)
        invariant forall j :: 0 <= j < i ==> commands[j].key !in db
      {
        if commands[i].key in db {
          return false;
        }
      }
      HandleInsertBatch(commands);
      return true;
    }

    /** Serializes the store as its entries in key order, whatever order the map yields them in. */
    method Dump(serialize: Tree -> seq<byte>) returns (bytes: seq<byte>)
      ensures IsDump(serialize, db, bytes)
    {
      var t: Tree := [];
      var rest := db.Keys;
      while rest != {}
        invariant rest <= db.Keys
        invariant Ascending(t)
        invariant AsMap(t) == map k | k in db && k !in rest :: db[k]
        decreases rest
      {
        var k :| k in rest;
        PutIsUpdate(t, k, db[k]);
        PutAscends(t, k, db[k]);
        t := Put(t, k, db[k]);
        rest := rest - {k};
      }
      assert AsMap(t) == db;
      bytes := serialize(t);
      forall other: Tree | Ascending(other) && AsMap(other) == db ensures other == t {
        OneTreePerMap(other, t);
      }
    }

    /** Rebuilds a store from a dump, entry by entry; of two entries with one key the later counts. */
    static method FromDump(deserialize: seq<byte> -> Option<Tree>, bytes: seq<byte>, capture: bool)
      returns (r: Option<InMemKvStore>)
      ensures r.Some? <==> deserialize(bytes).Some?
      ensures r.Some? ==> fresh(r.value) && r.value.log == [] && r.value.capture == capture
      ensures r.Some? ==> r.value.db == Replayed(deserialize(bytes).value)
    {
      var entries := deserialize(bytes);
      if entries.None? {
        return None;
      }
      var t := entries.value;
      var store := new InMemKvStore(capture);
      for i := 0 to |t|
        invariant fresh(store) && store.log == [] && store.capture == capture
        invariant store.db == Replayed(t[..i])
      {
        assert t[..i + 1][..i] == t[..i];
        store.Insert(t[i].key, t[i].value, None);
      }
      assert t[..|t|] == t;
      return Some(store);
    }

    /** Compares the counts, then looks every expected key up. */
    method HasExactKeys(keys: seq<Key>) returns (same: bool)
      ensures same <==> CountCheck(db, keys)
      ensures Distinct(keys) ==> (same <==> db.Keys == KeySet(keys))
    {
      if Distinct(keys) {
        CountDecides(db, keys);
      }
      if |db| != |keys| {
        return false;
      }
      for i := 0 to |keys|
        invariant forall j :: 0 <= j < i ==> keys[j] in db
      {
        if keys[i] !in db {
          return false;
        }
      }
      return true;
    }
  }

  lemma OneTreePerMap(a: Tree, b: Tree)
    requires Ascending(a) && Ascending(b) && AsMap(a) == AsMap(b)
    ensures a == b
  {
    KeysOfMembers(a);
    KeysOfMembers(b);
    AscendingIsUnique(KeysOf(a), KeysOf(b));
    forall i | 0 <= i < |a| ensures a[i] == b[i] {
      assert a[i].key == KeysOf(a)[i] == KeysOf(b)[i] == b[i].key;
      ValueAt(a, i);
      ValueAt(b, i);
    }
  }

  lemma {:induction false} ValueAt(t: Tree, i: nat)
    requires Ascending(t) && i < |t|
    ensures t[i].key in AsMap(t) && AsMap(t)[t[i].key] == t[i].value
  {
    if i > 0 {
      AscendingTail(t);
      ValueAt(t[1..], i - 1);
    }
  }

  /** The bytes a dump of these entries consists of: those of the sorted entry list. */
  ghost predicate IsDump(serialize: Tree -> seq<byte>, db: map<Key, seq<byte>>, bytes: seq<byte>)
  {
    forall t: Tree :: Ascending(t) && AsMap(t) == db ==> bytes == serialize(t)
  }

  /** The entries inserted one after the other into an empty store. */
  function Replayed(t: Tree): map<Key, seq<byte>>
  {
    if t == [] then map[] else Replayed(t[..|t| - 1])[t[|t| - 1].key := t[|t| - 1].value]
  }

  lemma {:induction false} ReplayedIsMap(t: Tree)
    requires Ascending(t)
    ensures Replayed(t) == AsMap(t)
  {
    if t != [] {
      var n := |t| - 1;
      ReplayedIsMap(t[..n]);
      assert t == t[..n] + [t[n]];
      AsMapSnoc(t[..n], t[n]);
    }
  }

  /** Whatever was decoded, a key has the value of its last entry. */
  lemma {:induction false} ReplayedLast(t: Tree, key: Key)
    ensures key in Replayed(t) <==> exists i :: 0 <= i < |t| && t[i].key == key
    ensures forall i :: 0 <= i < |t| && t[i].key == key && (forall j :: i < j < |t| ==> t[j].key != key) ==>
              key in Replayed(t) && Replayed(t)[key] == t[i].value
  {
    if t != [] {
      var n := |t| - 1;
      ReplayedLast(t[..n], key);
      if t[n].key != key {
        assert forall i :: 0 <= i < n ==> t[..n][i] == t[i];
      }
    }
  }

  /** Every contents has its sorted entry list. */
  lemma {:induction false} SortedEntries(db: map<Key, seq<byte>>) returns (t: Tree)
    ensures Ascending(t) && AsMap(t) == db
    decreases |db|
  {
    if db == map[] {
      t := [];
    } else {
      var k :| k in db;
      var rest := map x | x in db && x != k :: db[x];
      assert rest.Keys == db.Keys - {k};
      assert |rest.Keys| < |db.Keys|;
      var before := SortedEntries(rest);
      PutIsUpdate(before, k, db[k]);
      PutAscends(before, k, db[k]);
      t := Put(before, k, db[k]);
      assert rest[k := db[k]] == db;
    }
  }

  /** A store rebuilt from its dump has the same contents, for a format that reads back what it writes. */
  lemma DumpRoundTrip(
    serialize: Tree -> seq<byte>, deserialize: seq<byte> -> Option<Tree>, db: map<Key, seq<byte>>, bytes: seq<byte>)
    requires forall t: Tree :: Ascending(t) ==> deserialize(serialize(t)) == Some(t)
    requires IsDump(serialize, db, bytes)
    ensures deserialize(bytes).Some? && Replayed(deserialize(bytes).value) == db
  {
    var t := SortedEntries(db);
    ReplayedIsMap(t);
  }

  lemma {:induction false} AsMapSnoc(t: Tree, last: Entry)
    requires Ascending(t + [last])
    ensures AsMap(t + [last]) == AsMap(t)[last.key := last.value]
  {
    if t == [] {
      assert [last][1..] == [];
    } else {
      var all := t + [last];
      assert all[1..] == t[1..] + [last] && all[0] == t[0];
      AscendingTail(all);
      AsMapSnoc(t[1..], last);
      assert LexLess(all[0].key, all[|t|].key);
      LexIrreflexive(last.key);
    }
  }

  lemma CountDecides(db: map<Key, seq<byte>>, keys: seq<Key>)
    requires Distinct(keys)
    ensures CountCheck(db, keys) <==> db.Keys == KeySet(keys)
  {
    DistinctSize(keys);
    assert |db.Keys| == |db|;
    if |db| == |keys| && forall i :: 0 <= i < |keys| ==> keys[i] in db {
      assert KeySet(keys) <= db.Keys;
      assert |db.Keys - KeySet(keys)| == |db.Keys| - |KeySet(keys)|;
      assert db.Keys == KeySet(keys) + (db.Keys - KeySet(keys));
    }
    if db.Keys == KeySet(keys) {
      forall i | 0 <= i < |keys| ensures keys[i] in db.Keys { }
    }
  }

  /** What the in-memory check looks at: the counts, and whether every expected key is there. */
  predicate CountCheck(db: map<Key, seq<byte>>, keys: seq<Key>)
  {
    |db| == |keys| && forall i :: 0 <= i < |keys| ==> keys[i] in db
  }

  lemma {:induction false} RepeatShrinksSet(keys: seq<Key>)
    requires !Distinct(keys)
    ensures |KeySet(keys)| < |keys|
  {
    var n := |keys| - 1;
    assert KeySet(keys) == KeySet(keys[..n]) + {keys[n]};
    if Distinct(keys[..n]) {
      DistinctSize(keys[..n]);
      assert keys[n] in KeySet(keys[..n]);
    } else {
      RepeatShrinksSet(keys[..n]);
    }
  }

  /**
   * For a list of expected keys, counting decides equality of key sets in every store exactly when the
   * list names no key twice; otherwise it refuses the store that holds just these keys.
   */
  lemma CountDecidesExactly(keys: seq<Key>)
    ensures (forall db: map<Key, seq<byte>> :: CountCheck(db, keys) <==> db.Keys == KeySet(keys)) <==> Distinct(keys)
  {
    if Distinct(keys) {
      forall db: map<Key, seq<byte>> ensures CountCheck(db, keys) <==> db.Keys == KeySet(keys) {
        CountDecides(db, keys);
      }
    } else {
      var db: map<Key, seq<byte>> := map k | k in KeySet(keys) :: [];
      RepeatShrinksSet(keys);
      assert db.Keys == KeySet(keys) && |db| == |db.Keys|;
      assert !CountCheck(db, keys);
    }
  }

  /** Besides, a list that names one key twice passes for any two stored keys of which it is one. */
  lemma RepeatedKeyFoolsCount(a: Key, b: Key, value: seq<byte>)
    requires a != b
    ensures var db := map[a := value, b := value];
            CountCheck(db, [a, a]) && db.Keys != KeySet([a, a])
  {
    var db := map[a := value, b := value];
    assert db.Keys == {a, b};
    assert b in db.Keys && b !in KeySet([a, a]);
  }

  /**
   * Through the message constructor, which sorts and removes repetitions, both stores decide
   * equality of key sets: the list the message carries is distinct and names the same keys.
   */
  lemma MessageKeysDecide(db: map<Key, seq<byte>>, keys: seq<Key>)
    ensures Distinct(SortDedup(keys)) && KeySet(SortDedup(keys)) == KeySet(keys)
    ensures CountCheck(db, SortDedup(keys)) <==> db.Keys == KeySet(keys)
  {
    var expected := SortDedup(keys);
    SortDedupMembers(keys);
    forall i, j | 0 <= i < j < |expected| ensures expected[i] != expected[j] {
      LexIrreflexive(expected[i]);
    }
    forall k ensures k in KeySet(expected) <==> k in KeySet(keys) {
      assert k in KeySet(expected) <==> k in expected;
      assert k in KeySet(keys) <==> k in keys;
    }
    CountDecides(db, expected);
  }
}
