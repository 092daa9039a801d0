/** The input tree: its depth, the leaves it is built from, and what its root says about them. */
module MerkleTrees {
  import opened Bytes
  import opened Policies

  /** What a call ends with; a library that refuses a malformed node ends the process. */
  datatype Outcome<+T> = Done(value: T) | Failed(error: ComputeError) | Panicked

  /** The hash library: how it reads a node's text as a field element, and the hash of two elements. */
  datatype Hasher = Hasher(read: string -> Option<nat>, pair: (nat, nat) -> nat)

  /** Hexadecimal text of a number below the field order reads as that number, and hashes are below it. */
  ghost predicate Lawful(h: Hasher)
  {
    && h.read("0") == Some(0)
    && (forall a, b :: h.pair(a, b) < FIELD_ORDER)
    && (forall s: seq<byte> ::
          s != [] && FromBigEndian(s) < FIELD_ORDER ==> h.read(Hex(s)) == Some(FromBigEndian(s)))
  }

  /** There are such libraries. */
  lemma LawfulIsPossible()
    ensures exists h :: Lawful(h)
  {
    var read := (s: string) =>
      if s == "0" then Some(0) else match HexDecode(s) case Some(bytes) => Some(FromBigEndian(bytes)) case None => None;
    var h := Hasher(read, (a, b) => 0);
    forall s: seq<byte> | s != [] ensures h.read(Hex(s)) == Some(FromBigEndian(s)) {
      HexRoundTrip(s);
      assert |Hex(s)| >= 2;
    }
    assert Lawful(h);
  }

  function Element(h: Hasher, node: string): Option<nat> { h.read(Trim(node)) }

  /** The hash of two nodes, as text; nothing where the library panics. */
  function PoseidonHash(h: Hasher, left: string, right: string): Option<string>
  {
    match (Element(h, left), Element(h, right))
    case (Some(a), Some(b)) => Some(Hex(BigEndian(h.pair(a, b), 32)))
    case _ => None
  }

  // ---------- depth ----------

  function Pow2(d: nat): (p: nat)
    ensures p > 0
  {
    if d == 0 then 1 else 2 * Pow2(d - 1)
  }

  /** The base-two logarithm rounded up, zero for no leaves. */
  function CeilLog2(n: nat): nat
  {
    if n <= 1 then 0 else 1 + CeilLog2((n + 1) / 2)
  }

  function DepthFor(leaves: nat): nat
  {
    if CeilLog2(leaves) < 1 then 1 else CeilLog2(leaves)
  }

  lemma {:induction false} CeilLog2IsLeast(n: nat, d: nat)
    ensures n <= Pow2(d) <==> CeilLog2(n) <= d
  {
    if n > 1 && d > 0 {
      CeilLog2IsLeast((n + 1) / 2, d - 1);
    }
  }

  /** The depth holds every leaf, and of the depths that do and are not zero it is the least. */
  lemma DepthIsLeast(leaves: nat, d: nat)
    ensures 1 <= DepthFor(leaves) && leaves <= Pow2(DepthFor(leaves))
    ensures d >= 1 ==> (leaves <= Pow2(d) <==> DepthFor(leaves) <= d)
  {
    CeilLog2IsLeast(leaves, d);
    CeilLog2IsLeast(leaves, DepthFor(leaves));
  }

  // ---------- the tree ----------

  /** The node of height `d` over the leaves from `start` on; missing leaves are the zero value. */
  function Node(h: Hasher, d: nat, leaves: seq<string>, start: nat): Option<string>
  {
    if d == 0 then Some(if start < |leaves| then leaves[start] else "0")
    else
      match (Node(h, d - 1, leaves, start), Node(h, d - 1, leaves, start + Pow2(d - 1)))
      case (Some(left), Some(right)) => PoseidonHash(h, left, right)
      case _ => None
  }

  /** An append-only tree of fixed depth. */
  datatype Imt = Imt(depth: nat, leaves: seq<string>)
  {
    function Insert(h: Hasher, leaf: string): Outcome<Imt>
    {
      if |leaves| >= Pow2(depth) then Failed(MerkleTree(Full))
      else if Element(h, leaf).None? then Panicked
      else Done(Imt(depth, leaves + [leaf]))
    }

    function Root(h: Hasher): Option<string> { Node(h, depth, leaves, 0) }
  }

  predicate Readable(h: Hasher, leaves: seq<string>)
  {
    forall i :: 0 <= i < |leaves| ==> Element(h, leaves[i]).Some?
  }

  function Elements(h: Hasher, leaves: seq<string>): seq<nat>
    requires Readable(h, leaves)
  {
    seq(|leaves|, i requires 0 <= i < |leaves| => Element(h, leaves[i]).value)
  }

  /** The same tree over field elements, without any text. */
  function ElementNode(h: Hasher, d: nat, elements: seq<nat>, start: nat): nat
  {
    if d == 0 then Padded(elements, start)
    else h.pair(ElementNode(h, d - 1, elements, start), ElementNode(h, d - 1, elements, start + Pow2(d - 1)))
  }

  function Padded(elements: seq<nat>, i: nat): nat { if i < |elements| then elements[i] else 0 }

  lemma {:induction false} Pow256Adds(m: nat, n: nat)
    ensures Pow256(m + n) == Pow256(m) * Pow256(n)
  {
    if m > 0 {
      Pow256Adds(m - 1, n);
    }
  }

  lemma FieldFitsIn32Bytes()
    ensures FIELD_ORDER < Pow256(32)
  {
    Widths();
    Pow256Adds(8, 8);
    Pow256Adds(16, 16);
  }

  /** A printed node reads back as the element it was printed from, so text is transparent to hashing. */
  lemma PrintedNodeReads(h: Hasher, v: nat)
    requires Lawful(h) && v < FIELD_ORDER
    ensures Element(h, Hex(BigEndian(v, 32))) == Some(v)
  {
    FieldFitsIn32Bytes();
    BigEndianDecodes(v, 32);
    HexIsNotTrimmed(BigEndian(v, 32));
  }

  /** The tree of texts is the tree of elements; from height one on its nodes are 32-byte hexadecimals. */
  lemma {:induction false} TextTreeIsElementTree(h: Hasher, d: nat, leaves: seq<string>, start: nat)
    requires Lawful(h) && Readable(h, leaves)
    ensures var v := ElementNode(h, d, Elements(h, leaves), start);
            && Node(h, d, leaves, start).Some? && Element(h, Node(h, d, leaves, start).value) == Some(v)
            && (d > 0 ==> Node(h, d, leaves, start).value == Hex(BigEndian(v, 32)))
  {
    hide Hex;
    hide BigEndian;
    hide FromBigEndian;
    hide Lawful;
    hide Elements;
    hide Element;
    hide Readable;
    hide Pow2;
    if d == 0 {
      LeafIsElement(h, leaves, start);
    } else {
      TextTreeIsElementTree(h, d - 1, leaves, start);
      TextTreeIsElementTree(h, d - 1, leaves, start + Pow2(d - 1));
      assert ElementNode(h, d, Elements(h, leaves), start) < FIELD_ORDER by { HashBelowOrder(h); }
      PrintedNodeReads(h, ElementNode(h, d, Elements(h, leaves), start));
    }
  }

  lemma HashBelowOrder(h: Hasher)
    requires Lawful(h)
    ensures forall a, b :: h.pair(a, b) < FIELD_ORDER
  {
  }

  lemma LeafIsElement(h: Hasher, leaves: seq<string>, start: nat)
    requires Lawful(h) && Readable(h, leaves)
    ensures Node(h, 0, leaves, start).Some?
    ensures Element(h, Node(h, 0, leaves, start).value) == Some(ElementNode(h, 0, Elements(h, leaves), start))
  {
    assert Trim("0") == "0";
  }

  // ---------- what a root says about the leaves ----------

  /** The number of leaves below `i` nodes of height `e`. */
  function Width(i: nat, e: nat): nat { i * Pow2(e) }

  /** Each leaf of the tree of height `d` is the node of height `e` at its place in a tree `e` levels higher. */
  ghost predicate Refines(h: Hasher, d: nat, e: nat, a: seq<nat>, s: nat, b: seq<nat>, t: nat)
  {
    forall i :: 0 <= i < Pow2(d) ==> Padded(a, s + i) == ElementNode(h, e, b, t + Width(i, e))
  }

  /**
   * Somewhere at corresponding nodes of the two trees, two different pairs of children have one hash. A
   * hash has fewer values than there are pairs, so it matters that these pairs are in the trees.
   */
  ghost predicate CollidesBelow(h: Hasher, d: nat, e: nat, a: seq<nat>, s: nat, b: seq<nat>, t: nat)
    decreases d
  {
    d > 0 &&
    var (a1, a2) := Children(h, d, a, s);
    var (b1, b2) := Children(h, d + e, b, t);
    || ((a1 != b1 || a2 != b2) && h.pair(a1, a2) == h.pair(b1, b2))
    || CollidesBelow(h, d - 1, e, a, s, b, t)
    || CollidesBelow(h, d - 1, e, a, s + Pow2(d - 1), b, t + Pow2(d - 1 + e))
  }

  function Children(h: Hasher, d: nat, elements: seq<nat>, start: nat): (nat, nat)
    requires d > 0
  {
    (ElementNode(h, d - 1, elements, start), ElementNode(h, d - 1, elements, start + Pow2(d - 1)))
  }

  lemma {:induction false} Pow2Adds(d: nat, e: nat)
    ensures Pow2(d + e) == Pow2(d) * Pow2(e)
  {
    if d > 0 {
      Pow2Adds(d - 1, e);
    }
  }

  lemma WidthAdds(d: nat, e: nat, i: nat)
    ensures Width(Pow2(d) + i, e) == Pow2(d + e) + Width(i, e)
    ensures Width(0, e) == 0
  {
    Pow2Adds(d, e);
    var w := Pow2(e);
    assert (Pow2(d) + i) * w == Pow2(d) * w + i * w;
  }

  lemma RefinesParts(h: Hasher, d: nat, e: nat, a: seq<nat>, s: nat, b: seq<nat>, t: nat)
    requires d > 0 && Refines(h, d, e, a, s, b, t)
    ensures Refines(h, d - 1, e, a, s, b, t)
    ensures Refines(h, d - 1, e, a, s + Pow2(d - 1), b, t + Pow2(d - 1 + e))
  {
    hide ElementNode;
    hide Padded;
    hide Width;
    var half := Pow2(d - 1);
    assert Pow2(d) == half + half;
    forall i | 0 <= i < half
      ensures Padded(a, s + half + i) == ElementNode(h, e, b, t + Pow2(d - 1 + e) + Width(i, e))
    {
      WidthAdds(d - 1, e, i);
      assert Padded(a, s + (half + i)) == ElementNode(h, e, b, t + Width(half + i, e));
    }
  }

  lemma RefinesJoin(h: Hasher, d: nat, e: nat, a: seq<nat>, s: nat, b: seq<nat>, t: nat)
    requires d > 0 && Refines(h, d - 1, e, a, s, b, t)
    requires Refines(h, d - 1, e, a, s + Pow2(d - 1), b, t + Pow2(d - 1 + e))
    ensures Refines(h, d, e, a, s, b, t)
  {
    hide ElementNode;
    hide Padded;
    hide Width;
    var half := Pow2(d - 1);
    assert Pow2(d) == half + half;
    forall i | 0 <= i < Pow2(d) ensures Padded(a, s + i) == ElementNode(h, e, b, t + Width(i, e)) {
      if i >= half {
        var j := i - half;
        WidthAdds(d - 1, e, j);
        assert Padded(a, s + half + j) == ElementNode(h, e, b, t + Pow2(d - 1 + e) + Width(j, e));
      }
    }
  }

  lemma RefinesLeaf(h: Hasher, e: nat, a: seq<nat>, s: nat, b: seq<nat>, t: nat)
    ensures Refines(h, 0, e, a, s, b, t) <==> ElementNode(h, 0, a, s) == ElementNode(h, e, b, t)
  {
    hide Width;
    hide ElementNode;
    hide Padded;
    hide Pow2;
    LeafNode(h, a, s);
    WidthAdds(0, e, 0);
    if Refines(h, 0, e, a, s, b, t) {
      assert Padded(a, s + 0) == ElementNode(h, e, b, t + Width(0, e));
    }
  }

  lemma LeafNode(h: Hasher, elements: seq<nat>, start: nat)
    ensures ElementNode(h, 0, elements, start) == Padded(elements, start) && Pow2(0) == 1
  {
  }

  lemma ChildrenHash(h: Hasher, d: nat, elements: seq<nat>, start: nat)
    requires d > 0
    ensures ElementNode(h, d, elements, start) ==
              h.pair(Children(h, d, elements, start).0, Children(h, d, elements, start).1)
  {
  }

  /** Equal nodes have equal leaves, or nodes in a leaf's place, below them, or a collision between them. */
  lemma {:induction false} NodeBindsLeaves(h: Hasher, d: nat, e: nat, a: seq<nat>, s: nat, b: seq<nat>, t: nat)
    requires ElementNode(h, d, a, s) == ElementNode(h, d + e, b, t)
    ensures CollidesBelow(h, d, e, a, s, b, t) || Refines(h, d, e, a, s, b, t)
    decreases d
  {
    hide Refines;
    hide Pow2;
    hide ElementNode;
    if d == 0 {
      RefinesLeaf(h, e, a, s, b, t);
    } else {
      var right, right' := s + Pow2(d - 1), t + Pow2(d - 1 + e);
      ChildrenHash(h, d, a, s);
      ChildrenHash(h, d + e, b, t);
      if Children(h, d, a, s) == Children(h, d + e, b, t) {
        NodeBindsLeaves(h, d - 1, e, a, s, b, t);
        NodeBindsLeaves(h, d - 1, e, a, right, b, right');
        if Refines(h, d - 1, e, a, s, b, t) && Refines(h, d - 1, e, a, right, b, right') {
          RefinesJoin(h, d, e, a, s, b, t);
        }
      }
    }
  }

  /** Conversely a tree has the node it is refined by, whatever the hash. */
  lemma {:induction false} RefinedNodeIsEqual(h: Hasher, d: nat, e: nat, a: seq<nat>, s: nat, b: seq<nat>, t: nat)
    requires Refines(h, d, e, a, s, b, t)
    ensures ElementNode(h, d, a, s) == ElementNode(h, d + e, b, t)
    decreases d
  {
    hide Refines;
    if d == 0 {
      RefinesLeaf(h, e, a, s, b, t);
    } else {
      RefinesParts(h, d, e, a, s, b, t);
      RefinedNodeIsEqual(h, d - 1, e, a, s, b, t);
      RefinedNodeIsEqual(h, d - 1, e, a, s + Pow2(d - 1), b, t + Pow2(d - 1 + e));
    }
  }

  /** A digest's leaf is always one the tree takes, and stands for the digest reduced into the field. */
  lemma DigestLeafIsReadable(h: Hasher, digest: seq<byte>)
    requires Lawful(h)
    ensures Element(h, LeafFromDigest(digest)) == Some(FromBigEndian(digest) % FIELD_ORDER)
  {
    var v := FromBigEndian(digest) % FIELD_ORDER;
    MinimalBytesDecode(v);
    HexIsNotTrimmed(MinimalBytes(v));
  }

  // ---------- leaves and selection ----------

  /** The leaves of the first `n` entries, up to the first entry the policy has no leaf for. */
  function Leaves(leaf: LeafFn, entries: seq<PublishedInput>, n: nat): (r: seq<string>)
    requires n <= |entries|
    ensures |r| <= n
    ensures forall i :: 0 <= i < |r| ==> leaf(entries[i]) == Ok(r[i])
    ensures |r| < n ==> leaf(entries[|r|]).Err?
  {
    if n == 0 then []
    else
      var before := Leaves(leaf, entries, n - 1);
      if |before| < n - 1 || leaf(entries[n - 1]).Err? then before else before + [leaf(entries[n - 1]).value]
  }

  function Place(sorted: seq<nat>, x: nat): seq<nat>
  {
    if sorted == [] || x < sorted[0] then [x] + sorted
    else if x == sorted[0] then sorted
    else [sorted[0]] + Place(sorted[1..], x)
  }

  /** Sorted and without repeats. */
  function SortDedup(indices: seq<nat>): seq<nat>
  {
    if indices == [] then [] else Place(SortDedup(indices[1..]), indices[0])
  }

  predicate Increasing(s: seq<nat>) { forall i, j :: 0 <= i < j < |s| ==> s[i] < s[j] }

  lemma {:induction false} PlaceMembers(sorted: seq<nat>, x: nat)
    requires Increasing(sorted)
    ensures Increasing(Place(sorted, x))
    ensures forall y :: y in Place(sorted, x) <==> y in sorted || y == x
  {
    if sorted != [] && sorted[0] < x {
      PlaceMembers(sorted[1..], x);
      var rest := Place(sorted[1..], x);
      assert Place(sorted, x) == [sorted[0]] + rest;
      forall j | 0 <= j < |rest| ensures sorted[0] < rest[j] {
        assert rest[j] in rest;
      }
      forall y ensures y in [sorted[0]] + rest <==> y in sorted || y == x {
        assert y in sorted <==> y == sorted[0] || y in sorted[1..];
      }
    }
  }

  lemma {:induction false} SortDedupMembers(indices: seq<nat>)
    ensures Increasing(SortDedup(indices))
    ensures forall x :: x in SortDedup(indices) <==> x in indices
  {
    if indices != [] {
      SortDedupMembers(indices[1..]);
      PlaceMembers(SortDedup(indices[1..]), indices[0]);
      forall x ensures x in SortDedup(indices) <==> x in indices {
        assert x in indices <==> x == indices[0] || x in indices[1..];
      }
    }
  }

  lemma {:induction false} IncreasingIsUnique(a: seq<nat>, b: seq<nat>)
    requires Increasing(a) && Increasing(b)
    requires forall x :: x in a <==> x in b
    ensures a == b
  {
    assert a == [] || a[0] in a;
    assert b == [] || b[0] in b;
    if a != [] {
      assert a[0] in b;
      assert b[0] in a;
      assert a[0] == b[0];
      forall x ensures x in a[1..] <==> x in b[1..] {
        assert x in a <==> x == a[0] || x in a[1..];
        assert x in b <==> x == b[0] || x in b[1..];
      }
      IncreasingIsUnique(a[1..], b[1..]);
      assert a == [a[0]] + a[1..] && b == [b[0]] + b[1..];
    }
  }

  type Ciphertext = (seq<byte>, nat)

  /** The ciphertexts at the given indices, or the first index there is none for. */
  function Pick(ciphertexts: seq<Ciphertext>, indices: seq<nat>, n: nat): (r: Result<seq<Ciphertext>, ComputeError>)
    requires n <= |indices|
    ensures r.Ok? <==> forall i :: 0 <= i < n ==> indices[i] < |ciphertexts|
    ensures r.Ok? ==> |r.value| == n && forall i :: 0 <= i < n ==> r.value[i] == ciphertexts[indices[i]]
    ensures r.Err? ==> exists i :: 0 <= i < n && r.error == MerkleTree(OutOfRange(indices[i])) &&
                         |ciphertexts| <= indices[i] && forall j :: 0 <= j < i ==> indices[j] < |ciphertexts|
  {
    if n == 0 then Ok([])
    else match Pick(ciphertexts, indices, n - 1)
      case Err(e) => Err(e)
      case Ok(picked) =>
        if indices[n - 1] < |ciphertexts| then Ok(picked + [ciphertexts[indices[n - 1]]])
        else Err(MerkleTree(OutOfRange(indices[n - 1])))
  }

  function Picked(ciphertexts: seq<Ciphertext>, select: SelectFn, entries: seq<PublishedInput>):
    Result<seq<Ciphertext>, ComputeError>
  {
    var indices := SortDedup(select(entries));
    Pick(ciphertexts, indices, |indices|)
  }

  /** The commitment the E3 program published with a ciphertext, and whatever else it published. */
  datatype PublishedData = PublishedData(commitment: Option<seq<byte>>, metadata: seq<byte>)

  datatype BfvParams = BfvParams(degree: nat, plaintext: nat, moduli: seq<nat>)

  /** A ciphertext's commitment; none for bytes that are no ciphertext. */
  type Committer = (seq<byte>, BfvParams) -> Option<seq<byte>>

  function EntryAt(
    commit: Committer, ciphertexts: seq<Ciphertext>, published: seq<PublishedData>, params: BfvParams, i: nat):
    PublishedInput
    requires i < |ciphertexts|
  {
    var entry := if i < |published| then published[i] else PublishedData(None, []);
    PublishedInput(i, ciphertexts[i].0, entry.commitment, entry.metadata, commit(ciphertexts[i].0, params))
  }

  function Entries(
    commit: Committer, ciphertexts: seq<Ciphertext>, published: seq<PublishedData>, params: BfvParams):
    seq<PublishedInput>
  {
    seq(|ciphertexts|, i requires 0 <= i < |ciphertexts| => EntryAt(commit, ciphertexts, published, params, i))
  }

  // ---------- the builder ----------

  class MerkleTreeBuilder {
    var leafHashes: seq<string>
    const depth: nat

    constructor (numLeaves: nat)
      ensures leafHashes == [] && depth == DepthFor(numLeaves)
    {
      leafHashes := [];
      depth := DepthFor(numLeaves);
    }

    /** Adds one leaf per input, whatever is selected, and returns the selected ciphertexts in index order. */
    method ComputeLeafHashes(
      commit: Committer, ciphertexts: seq<Ciphertext>, published: seq<PublishedData>, params: BfvParams,
      policy: InputPolicy) returns (r: Result<seq<Ciphertext>, ComputeError>)
      modifies this
      ensures var entries := Entries(commit, ciphertexts, published, params);
              var leaves := Leaves(policy.leaf, entries, |entries|);
              && leafHashes == old(leafHashes) + leaves
              && (|leaves| < |entries| ==>
                    r.Err? && policy.leaf(entries[|leaves|]).Err? &&
                    r.error == policy.leaf(entries[|leaves|]).error)
              && (|leaves| == |entries| ==> r == Picked(ciphertexts, policy.select, entries))
    {
      var entries := Entries(commit, ciphertexts, published, params);
      var k := 0;
      while k < |entries|
        invariant 0 <= k <= |entries|
        invariant |Leaves(policy.leaf, entries, k)| == k
        invariant leafHashes == old(leafHashes) + Leaves(policy.leaf, entries, k)
      {
        var leaf := policy.leaf(entries[k]);
        if leaf.Err? {
          FirstErrorStays(policy.leaf, entries, k, |entries|);
          return Err(leaf.error);
        }
        leafHashes := leafHashes + [leaf.value];
        k := k + 1;
      }
      var selected := SortDedup(policy.select(entries));
      var picked := [];
      k := 0;
      while k < |selected|
        invariant 0 <= k <= |selected|
        invariant Pick(ciphertexts, selected, k) == Ok(picked)
        invariant leafHashes == old(leafHashes) + Leaves(policy.leaf, entries, |entries|)
      {
        if selected[k] >= |ciphertexts| {
          FirstMissStays(ciphertexts, selected, k, |selected|);
          return Err(MerkleTree(OutOfRange(selected[k])));
        }
        picked := picked + [ciphertexts[selected[k]]];
        k := k + 1;
      }
      return Ok(picked);
    }

    /** The tree of the leaves; a tree with room for them is never full. */
    method BuildTree(h: Hasher) returns (r: Outcome<Imt>)
      ensures |leafHashes| <= Pow2(depth) ==>
                r == if Readable(h, leafHashes) then Done(Imt(depth, leafHashes)) else Panicked
      ensures |leafHashes| > Pow2(depth) ==> !r.Done?
      ensures r.Failed? ==> r.error == MerkleTree(Full)
    {
      var tree := Imt(depth, []);
      var k := 0;
      while k < |leafHashes|
        invariant 0 <= k <= |leafHashes|
        invariant tree == Imt(depth, leafHashes[..k]) && Readable(h, leafHashes[..k]) && k <= Pow2(depth)
      {
        var next := tree.Insert(h, leafHashes[k]);
        if next.Failed? {
          return Failed(next.error);
        }
        if next.Panicked? {
          return Panicked;
        }
        tree := next.value;
        k := k + 1;
      }
      assert leafHashes[..k] == leafHashes;
      return Done(tree);
    }
  }

  lemma {:induction false} FirstErrorStays(leaf: LeafFn, entries: seq<PublishedInput>, k: nat, n: nat)
    requires k < n <= |entries| && |Leaves(leaf, entries, k)| == k && leaf(entries[k]).Err?
    ensures Leaves(leaf, entries, n) == Leaves(leaf, entries, k)
  {
    if k + 1 < n {
      FirstErrorStays(leaf, entries, k, n - 1);
    }
  }

  lemma {:induction false} FirstMissStays(ciphertexts: seq<Ciphertext>, indices: seq<nat>, k: nat, n: nat)
    requires k < n <= |indices| && Pick(ciphertexts, indices, k).Ok? && indices[k] >= |ciphertexts|
    ensures Pick(ciphertexts, indices, n) == Err(MerkleTree(OutOfRange(indices[k])))
  {
    if k + 1 < n {
      FirstMissStays(ciphertexts, indices, k, n - 1);
    }
  }
}
