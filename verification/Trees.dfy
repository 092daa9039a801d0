/** The sorted byte-key tree of the disk store: its entries in key order, and the map they stand for. */
module Trees {
  import opened Bytes

  type Key = seq<byte>

  datatype Entry = Entry(key: Key, value: seq<byte>)

  type Tree = seq<Entry>

  // ---------- the key order ----------

  lemma {:induction false} LexIrreflexive(a: Key)
    ensures !LexLess(a, a)
  {
    if a != [] {
      LexIrreflexive(a[1..]);
    }
  }

  lemma {:induction false} LexTotal(a: Key, b: Key)
    ensures a == b || LexLess(a, b) || LexLess(b, a)
  {
    if a != [] && b != [] && a[0] == b[0] {
      LexTotal(a[1..], b[1..]);
      assert a == [a[0]] + a[1..] && b == [b[0]] + b[1..];
    }
  }

  lemma {:induction false} LexTransitive(a: Key, b: Key, c: Key)
    requires LexLess(a, b) && LexLess(b, c)
    ensures LexLess(a, c)
  {
    if a != [] && a[0] == b[0] && b[0] == c[0] {
      LexTransitive(a[1..], b[1..], c[1..]);
    }
  }

  // ---------- the tree ----------

  ghost predicate Ascending(t: Tree)
  {
    forall i, j :: 0 <= i < j < |t| ==> LexLess(t[i].key, t[j].key)
  }

  function AsMap(t: Tree): map<Key, seq<byte>>
  {
    if t == [] then map[] else AsMap(t[1..])[t[0].key := t[0].value]
  }

  function Put(t: Tree, key: Key, value: seq<byte>): Tree
  {
    if t == [] then [Entry(key, value)]
    else if t[0].key == key then [Entry(key, value)] + t[1..]
    else if LexLess(key, t[0].key) then [Entry(key, value)] + t
    else [t[0]] + Put(t[1..], key, value)
  }

  function Cut(t: Tree, key: Key): Tree
  {
    if t == [] then [] else if t[0].key == key then t[1..] else [t[0]] + Cut(t[1..], key)
  }

  function Lookup(t: Tree, key: Key): Option<seq<byte>>
  {
    if t == [] then None else if t[0].key == key then Some(t[0].value) else Lookup(t[1..], key)
  }

  /** The first entry whose key is not below the given one. */
  function Seek(t: Tree, key: Key): Option<Entry>
  {
    if t == [] then None else if LexLess(t[0].key, key) then Seek(t[1..], key) else Some(t[0])
  }

  lemma {:induction false} KeysInMap(t: Tree)
    ensures forall k :: k in AsMap(t) <==> exists i :: 0 <= i < |t| && t[i].key == k
  {
    if t != [] {
      KeysInMap(t[1..]);
      forall k ensures k in AsMap(t) <==> exists i :: 0 <= i < |t| && t[i].key == k {
        if i :| 0 <= i < |t| && t[i].key == k {
          if i > 0 { assert t[1..][i - 1].key == k; }
        }
        if k in AsMap(t[1..]) {
          var j :| 0 <= j < |t[1..]| && t[1..][j].key == k;
          assert t[j + 1].key == k;
        }
      }
    }
  }

  lemma AscendingTail(t: Tree)
    requires Ascending(t) && t != []
    ensures Ascending(t[1..])
    ensures t[0].key !in AsMap(t[1..])
  {
    KeysInMap(t[1..]);
    LexIrreflexive(t[0].key);
  }

  lemma {:induction false} LookupIsMap(t: Tree, key: Key)
    ensures Lookup(t, key) == if key in AsMap(t) then Some(AsMap(t)[key]) else None
  {
    if t != [] {
      LookupIsMap(t[1..], key);
    }
  }

  lemma {:induction false} PutIsUpdate(t: Tree, key: Key, value: seq<byte>)
    ensures AsMap(Put(t, key, value)) == AsMap(t)[key := value]
  {
    if t == [] {
      assert [Entry(key, value)][1..] == [];
    } else if t[0].key == key {
      assert ([Entry(key, value)] + t[1..])[1..] == t[1..];
    } else if LexLess(key, t[0].key) {
      assert ([Entry(key, value)] + t)[1..] == t;
    } else {
      PutIsUpdate(t[1..], key, value);
      assert ([t[0]] + Put(t[1..], key, value))[1..] == Put(t[1..], key, value);
    }
  }

  lemma PutKeys(t: Tree, key: Key, value: seq<byte>, i: nat)
    requires i < |Put(t, key, value)|
    ensures Put(t, key, value)[i].key == key || exists j :: 0 <= j < |t| && t[j].key == Put(t, key, value)[i].key
  {
    KeysInMap(Put(t, key, value));
    KeysInMap(t);
    PutIsUpdate(t, key, value);
    assert Put(t, key, value)[i].key in AsMap(Put(t, key, value));
  }

  lemma {:induction false} PutAscends(t: Tree, key: Key, value: seq<byte>)
    requires Ascending(t)
    ensures Ascending(Put(t, key, value))
  {
    if t != [] && t[0].key != key {
      if LexLess(key, t[0].key) {
        forall j | 0 <= j < |t| ensures LexLess(key, t[j].key) {
          if j > 0 { LexTransitive(key, t[0].key, t[j].key); }
        }
      } else {
        LexTotal(key, t[0].key);
        AscendingTail(t);
        PutAscends(t[1..], key, value);
        var rest := Put(t[1..], key, value);
        forall i | 0 <= i < |rest| ensures LexLess(t[0].key, rest[i].key) {
          PutKeys(t[1..], key, value, i);
        }
      }
    }
  }

  lemma {:induction false} CutIsRemoval(t: Tree, key: Key)
    requires Ascending(t)
    ensures AsMap(Cut(t, key)) == AsMap(t) - {key}
  {
    hide LexLess;
    hide Ascending;
    if t != [] {
      AscendingTail(t);
      if t[0].key != key {
        CutIsRemoval(t[1..], key);
        assert ([t[0]] + Cut(t[1..], key))[1..] == Cut(t[1..], key);
      }
    }
  }

  lemma {:induction false} CutAscends(t: Tree, key: Key)
    requires Ascending(t)
    ensures Ascending(Cut(t, key))
  {
    hide LexLess;
    if t != [] {
      AscendingTail(t);
      if t[0].key != key {
        CutAscends(t[1..], key);
        var rest := Cut(t[1..], key);
        forall i | 0 <= i < |rest| ensures LexLess(t[0].key, rest[i].key) {
          CutKeys(t[1..], key, i);
        }
      }
    }
  }

  lemma CutKeys(t: Tree, key: Key, i: nat)
    requires Ascending(t) && i < |Cut(t, key)|
    ensures exists j :: 0 <= j < |t| && t[j].key == Cut(t, key)[i].key
  {
    KeysInMap(Cut(t, key));
    KeysInMap(t);
    CutIsRemoval(t, key);
    assert Cut(t, key)[i].key in AsMap(Cut(t, key));
  }

  lemma FirstMember(keys: seq<Key>)
    ensures keys != [] ==> keys[0] in keys
  {
  }

  /** Two ascending key lists with the same members are the same list. */
  lemma {:induction false} AscendingIsUnique(a: seq<Key>, b: seq<Key>)
    requires AscendingKeys(a) && AscendingKeys(b)
    requires forall k :: k in a <==> k in b
    ensures a == b
    decreases |a|
  {
    FirstMember(a);
    FirstMember(b);
    if a != [] {
      assert a[0] in a && a[0] in b;
      assert b[0] in b && b[0] in a;
      var i :| 0 <= i < |b| && b[i] == a[0];
      var j :| 0 <= j < |a| && a[j] == b[0];
      if a[0] != b[0] {
        LexTransitive(a[0], b[0], a[0]);
        LexIrreflexive(a[0]);
      }
      forall k ensures k in a[1..] <==> k in b[1..] {
        LexIrreflexive(a[0]);
        assert k in a <==> k == a[0] || k in a[1..];
        assert k in b <==> k == b[0] || k in b[1..];
        assert a[0] !in a[1..] && b[0] !in b[1..];
      }
      AscendingIsUnique(a[1..], b[1..]);
      assert a == [a[0]] + a[1..] && b == [b[0]] + b[1..];
    }
  }

  ghost predicate AscendingKeys(keys: seq<Key>)
  {
    forall i, j :: 0 <= i < j < |keys| ==> LexLess(keys[i], keys[j])
  }

  function KeysOf(t: Tree): (ks: seq<Key>)
    ensures |ks| == |t|
  {
    seq(|t|, i requires 0 <= i < |t| => t[i].key)
  }

  lemma KeysOfMembers(t: Tree)
    ensures forall k :: k in KeysOf(t) <==> k in AsMap(t)
    ensures Ascending(t) ==> AscendingKeys(KeysOf(t))
  {
    KeysInMap(t);
    forall k ensures k in KeysOf(t) <==> k in AsMap(t) {
      if i :| 0 <= i < |t| && t[i].key == k { assert KeysOf(t)[i] == k; }
    }
  }
}
