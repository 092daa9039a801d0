/** The Secure Process: one policy ties the leaves, the root, the processed set and the journal together. */
module Compute {
  import opened Bytes
  import opened Policies
  import opened MerkleTrees

  datatype FHEInputs = FHEInputs(ciphertexts: seq<Ciphertext>, params: seq<byte>)

  type FHEProcessor = FHEInputs -> seq<byte>

  datatype ComputeInput = ComputeInput(fheInputs: FHEInputs, published: seq<PublishedData>)

  datatype ComputeResult = ComputeResult(
    ciphertextHash: seq<byte>, ciphertextCommitment: seq<byte>, paramsHash: seq<byte>, merkleRoot: seq<byte>)

  /** The cryptographic functions, none of which is looked into. */
  datatype Library = Library(
    decodeParams: seq<byte> -> Option<BfvParams>, commit: Committer, keccak: seq<byte> -> seq<byte>, hasher: Hasher)

  function EntriesOf(lib: Library, input: ComputeInput, params: BfvParams): seq<PublishedInput>
  {
    Entries(lib.commit, input.fheInputs.ciphertexts, input.published, params)
  }

  predicate Mispaired(input: ComputeInput)
  {
    input.published != [] && |input.published| != |input.fheInputs.ciphertexts|
  }

  /** From the tree and the selection to the journal. */
  function Finish(
    lib: Library, input: ComputeInput, params: BfvParams, processor: FHEProcessor, root: string,
    selected: seq<Ciphertext>): Outcome<(ComputeResult, seq<byte>)>
  {
    var processed := processor(FHEInputs(selected, input.fheInputs.params));
    match lib.commit(processed, params)
    case None => Failed(OutputCommitment)
    case Some(commitment) =>
      match HexDecode(root)
      case None => Failed(MerkleTree(NotHex))
      case Some(rootBytes) =>
        Done((ComputeResult(lib.keccak(processed), commitment, lib.keccak(input.fheInputs.params), rootBytes),
              processed))
  }

  function RunOf(lib: Library, input: ComputeInput, processor: FHEProcessor, policy: InputPolicy):
    Outcome<(ComputeResult, seq<byte>)>
  {
    match lib.decodeParams(input.fheInputs.params)
    case None => Failed(DecodeParams)
    case Some(params) =>
      var ciphertexts := input.fheInputs.ciphertexts;
      if Mispaired(input) then Failed(MerkleTree(LengthMismatch(|ciphertexts|, |input.published|)))
      else
        var entries := EntriesOf(lib, input, params);
        var leaves := Leaves(policy.leaf, entries, |entries|);
        if |leaves| < |entries| then Failed(policy.leaf(entries[|leaves|]).error)
        else match Picked(ciphertexts, policy.select, entries)
          case Err(e) => Failed(e)
          case Ok(selected) =>
            if !Readable(lib.hasher, leaves) then Panicked
            else match Imt(DepthFor(|ciphertexts|), leaves).Root(lib.hasher)
              case None => Panicked
              case Some(root) => Finish(lib, input, params, processor, root, selected)
  }

  method Run(lib: Library, input: ComputeInput, processor: FHEProcessor, policy: InputPolicy)
    returns (outcome: Outcome<(ComputeResult, seq<byte>)>)
    ensures outcome == RunOf(lib, input, processor, policy)
  {
    hide Leaves;
    hide SortDedup;
    hide CeilLog2;
    hide Node;
    hide HexDecode;
    hide Pick;
    hide Pow2;
    hide Element;
    var params := lib.decodeParams(input.fheInputs.params);
    if params.None? {
      return Failed(DecodeParams);
    }
    var ciphertexts := input.fheInputs.ciphertexts;
    if input.published != [] && |input.published| != |ciphertexts| {
      return Failed(MerkleTree(LengthMismatch(|ciphertexts|, |input.published|)));
    }
    var builder := new MerkleTreeBuilder(|ciphertexts|);
    var selected := builder.ComputeLeafHashes(lib.commit, ciphertexts, input.published, params.value, policy);
    ghost var entries := EntriesOf(lib, input, params.value);
    assert builder.leafHashes == Leaves(policy.leaf, entries, |entries|);
    if selected.Err? {
      return Failed(selected.error);
    }
    DepthIsLeast(|ciphertexts|, 1);
    var tree := builder.BuildTree(lib.hasher);
    var root: Option<string>;
    match tree {
      case Failed(e) => return Failed(e);
      case Panicked => return Panicked;
      case Done(built) => root := built.Root(lib.hasher);
    }
    if root.None? {
      return Panicked;
    }
    var processed := processor(FHEInputs(selected.value, input.fheInputs.params));
    var commitment := lib.commit(processed, params.value);
    if commitment.None? {
      return Failed(OutputCommitment);
    }
    var rootBytes := HexDecode(root.value);
    if rootBytes.None? {
      return Failed(MerkleTree(NotHex));
    }
    return Done((ComputeResult(lib.keccak(processed), commitment.value, lib.keccak(input.fheInputs.params),
                               rootBytes.value), processed));
  }

  function Process(lib: Library, input: ComputeInput, processor: FHEProcessor, policy: InputPolicy):
    Outcome<ComputeResult>
  {
    match RunOf(lib, input, processor, policy)
    case Done(pair) => Done(pair.0)
    case Failed(e) => Failed(e)
    case Panicked => Panicked
  }

  // ---------- what a successful run has established ----------

  /** Every ciphertext has a leaf, and the tree can read it. */
  ghost predicate AllLeaves(lib: Library, input: ComputeInput, params: BfvParams, leaf: LeafFn)
  {
    forall i :: 0 <= i < |EntriesOf(lib, input, params)| ==>
      var l := leaf(EntriesOf(lib, input, params)[i]);
      l.Ok? && Element(lib.hasher, l.value).Some?
  }

  /** The leaves as field elements, one for each ciphertext, in order. */
  ghost function LeafElements(lib: Library, input: ComputeInput, params: BfvParams, leaf: LeafFn): (r: seq<nat>)
    requires AllLeaves(lib, input, params, leaf)
    ensures |r| == |input.fheInputs.ciphertexts|
  {
    var entries := EntriesOf(lib, input, params);
    seq(|entries|, i requires 0 <= i < |entries| => Element(lib.hasher, leaf(entries[i]).value).value)
  }

  /** `indices` is what the policy selected: in increasing order, nothing twice, nothing added or lost. */
  ghost predicate IsSelection(select: SelectFn, entries: seq<PublishedInput>, indices: seq<nat>)
  {
    Increasing(indices) && forall x :: x in indices <==> x in select(entries)
  }

  function At(ciphertexts: seq<Ciphertext>, indices: seq<nat>): seq<Ciphertext>
    requires forall i :: 0 <= i < |indices| ==> indices[i] < |ciphertexts|
  {
    seq(|indices|, i requires 0 <= i < |indices| => ciphertexts[indices[i]])
  }

  function RootBytes(lib: Library, depth: nat, elements: seq<nat>): seq<byte>
  {
    BigEndian(ElementNode(lib.hasher, depth, elements, 0), 32)
  }

  /** What must hold of the input and the policy, before anything is processed. */
  ghost predicate Accepts(lib: Library, input: ComputeInput, policy: InputPolicy)
  {
    var params := lib.decodeParams(input.fheInputs.params);
    && params.Some? && !Mispaired(input)
    && AllLeaves(lib, input, params.value, policy.leaf)
    && forall x :: x in policy.select(EntriesOf(lib, input, params.value)) ==> x < |input.fheInputs.ciphertexts|
  }

  lemma AllLeavesMeansLeaves(lib: Library, input: ComputeInput, params: BfvParams, leaf: LeafFn)
    ensures var entries := EntriesOf(lib, input, params);
            var leaves := Leaves(leaf, entries, |entries|);
            && (AllLeaves(lib, input, params, leaf) <==> |leaves| == |entries| && Readable(lib.hasher, leaves))
            && (AllLeaves(lib, input, params, leaf) ==>
                  Readable(lib.hasher, leaves) &&
                  Elements(lib.hasher, leaves) == LeafElements(lib, input, params, leaf))
  {
    hide Element;
    var entries := EntriesOf(lib, input, params);
    var leaves := Leaves(leaf, entries, |entries|);
    if AllLeaves(lib, input, params, leaf) {
      assert |leaves| == |entries|;
    } else if |leaves| == |entries| && Readable(lib.hasher, leaves) {
      forall i | 0 <= i < |entries| ensures leaf(entries[i]).Ok? && Element(lib.hasher, leaf(entries[i]).value).Some? {
        assert leaf(entries[i]) == Ok(leaves[i]);
      }
    }
  }

  /** The selected ciphertexts, for a selection in range. */
  lemma PickedIsSelection(ciphertexts: seq<Ciphertext>, select: SelectFn, entries: seq<PublishedInput>)
    ensures var indices := SortDedup(select(entries));
            && IsSelection(select, entries, indices)
            && (Picked(ciphertexts, select, entries).Ok? <==> forall x :: x in select(entries) ==> x < |ciphertexts|)
            && (Picked(ciphertexts, select, entries).Ok? ==>
                  && (forall i :: 0 <= i < |indices| ==> indices[i] < |ciphertexts|)
                  && Picked(ciphertexts, select, entries).value == At(ciphertexts, indices))
  {
    hide SortDedup;
    var indices := SortDedup(select(entries));
    SortDedupMembers(select(entries));
    if Picked(ciphertexts, select, entries).Ok? {
      forall x | x in select(entries) ensures x < |ciphertexts| {
        assert x in indices;
      }
    } else if forall x :: x in select(entries) ==> x < |ciphertexts| {
      forall i | 0 <= i < |indices| ensures indices[i] < |ciphertexts| {
        assert indices[i] in indices;
      }
    }
  }

  /** The tree of a full list of readable leaves has a root, and its text decodes to the root element's bytes. */
  lemma RootText(lib: Library, leaves: seq<string>)
    requires Lawful(lib.hasher) && Readable(lib.hasher, leaves)
    ensures var depth := DepthFor(|leaves|);
            var root := Imt(depth, leaves).Root(lib.hasher);
            root.Some? && HexDecode(root.value) == Some(RootBytes(lib, depth, Elements(lib.hasher, leaves)))
  {
    hide HexDecode;
    hide Hex;
    hide BigEndian;
    var depth := DepthFor(|leaves|);
    TextTreeIsElementTree(lib.hasher, depth, leaves, 0);
    HexRoundTrip(BigEndian(ElementNode(lib.hasher, depth, Elements(lib.hasher, leaves), 0), 32));
  }

  /**
   * A run over accepted input fails only if the processor's output is no ciphertext; otherwise the root
   * is that of all the leaves, the processor saw exactly the selection, and the journal describes the
   * returned ciphertext.
   */
  lemma AcceptedRun(lib: Library, input: ComputeInput, processor: FHEProcessor, policy: InputPolicy)
    requires Lawful(lib.hasher) && Accepts(lib, input, policy)
    ensures var params := lib.decodeParams(input.fheInputs.params).value;
            var ciphertexts := input.fheInputs.ciphertexts;
            exists indices ::
              && IsSelection(policy.select, EntriesOf(lib, input, params), indices)
              && (forall i :: 0 <= i < |indices| ==> indices[i] < |ciphertexts|)
              && var processed := processor(FHEInputs(At(ciphertexts, indices), input.fheInputs.params));
                 RunOf(lib, input, processor, policy) ==
                   match lib.commit(processed, params)
                   case None => Failed(OutputCommitment)
                   case Some(commitment) =>
                     Done((ComputeResult(
                             lib.keccak(processed), commitment, lib.keccak(input.fheInputs.params),
                             RootBytes(lib, DepthFor(|ciphertexts|), LeafElements(lib, input, params, policy.leaf))),
                           processed))
  {
    hide Leaves;
    hide SortDedup;
    hide HexDecode;
    hide Lawful;
    hide RootBytes;
    hide LeafElements;
    hide AllLeaves;
    hide IsSelection;
    var params := lib.decodeParams(input.fheInputs.params).value;
    var entries := EntriesOf(lib, input, params);
    var leaves := Leaves(policy.leaf, entries, |entries|);
    AllLeavesMeansLeaves(lib, input, params, policy.leaf);
    PickedIsSelection(input.fheInputs.ciphertexts, policy.select, entries);
    RootText(lib, leaves);
    var indices := SortDedup(policy.select(entries));
    assert IsSelection(policy.select, entries, indices);
  }

  /** Nothing that is not accepted gives a result; what is accepted fails only on the processor's output. */
  lemma RunSucceedsExactly(lib: Library, input: ComputeInput, processor: FHEProcessor, policy: InputPolicy)
    requires Lawful(lib.hasher)
    ensures RunOf(lib, input, processor, policy).Done? ==> Accepts(lib, input, policy)
    ensures Accepts(lib, input, policy) ==>
              RunOf(lib, input, processor, policy).Done? ||
              RunOf(lib, input, processor, policy) == Failed(OutputCommitment)
  {
    hide Leaves;
    hide SortDedup;
    hide HexDecode;
    hide Lawful;
    hide AllLeaves;
    hide Finish;
    if lib.decodeParams(input.fheInputs.params).Some? {
      var params := lib.decodeParams(input.fheInputs.params).value;
      AllLeavesMeansLeaves(lib, input, params, policy.leaf);
      PickedIsSelection(input.fheInputs.ciphertexts, policy.select, EntriesOf(lib, input, params));
      if Accepts(lib, input, policy) { AcceptedRun(lib, input, processor, policy); }
    }
  }

  /** The leaf elements behind a successful run. */
  ghost function ElementsOf(lib: Library, input: ComputeInput, policy: InputPolicy): seq<nat>
    requires Accepts(lib, input, policy)
  {
    LeafElements(lib, input, lib.decodeParams(input.fheInputs.params).value, policy.leaf)
  }

  /** The root of a successful run is a function of its leaves alone. */
  lemma RootIsOfAllLeaves(lib: Library, input: ComputeInput, processor: FHEProcessor, policy: InputPolicy)
    requires Lawful(lib.hasher) && RunOf(lib, input, processor, policy).Done?
    ensures Accepts(lib, input, policy)
    ensures RunOf(lib, input, processor, policy).value.0.merkleRoot ==
            RootBytes(lib, DepthFor(|input.fheInputs.ciphertexts|), ElementsOf(lib, input, policy))
  {
    hide RunOf;
    hide Accepts;
    hide RootBytes;
    hide Lawful;
    RunSucceedsExactly(lib, input, processor, policy);
    AcceptedRun(lib, input, processor, policy);
  }

  /**
   * What is computed does not reach the root: another selection, another processor and other on-chain
   * indices over the same published bytes give the same root.
   */
  lemma RootIgnoresSelection(
    lib: Library, a: ComputeInput, b: ComputeInput, p: FHEProcessor, q: FHEProcessor, leaf: LeafFn, s: SelectFn,
    t: SelectFn)
    requires Lawful(lib.hasher)
    requires a.fheInputs.params == b.fheInputs.params && a.published == b.published
    requires |a.fheInputs.ciphertexts| == |b.fheInputs.ciphertexts|
    requires forall i :: 0 <= i < |a.fheInputs.ciphertexts| ==>
                           a.fheInputs.ciphertexts[i].0 == b.fheInputs.ciphertexts[i].0
    ensures RunOf(lib, a, p, InputPolicy(leaf, s)).Done? && RunOf(lib, b, q, InputPolicy(leaf, t)).Done? ==>
              RunOf(lib, a, p, InputPolicy(leaf, s)).value.0.merkleRoot ==
              RunOf(lib, b, q, InputPolicy(leaf, t)).value.0.merkleRoot
  {
    hide RunOf;
    hide RootBytes;
    hide Lawful;
    if RunOf(lib, a, p, InputPolicy(leaf, s)).Done? && RunOf(lib, b, q, InputPolicy(leaf, t)).Done? {
      RootIsOfAllLeaves(lib, a, p, InputPolicy(leaf, s));
      RootIsOfAllLeaves(lib, b, q, InputPolicy(leaf, t));
      var params := lib.decodeParams(a.fheInputs.params).value;
      assert EntriesOf(lib, a, params) == EntriesOf(lib, b, params);
      assert ElementsOf(lib, a, InputPolicy(leaf, s)) == ElementsOf(lib, b, InputPolicy(leaf, t));
    }
  }

  /**
   * Two lists of leaves a root cannot tell apart: padded with zeros they are the same, or one tree is
   * lower and each of its leaves is the node at the same place of the other tree.
   */
  ghost predicate SameTree(h: Hasher, a: seq<nat>, b: seq<nat>)
  {
    var d, e := DepthFor(|a|), DepthFor(|b|);
    if d <= e then Refines(h, d, e - d, a, 0, b, 0) else Refines(h, e, d - e, b, 0, a, 0)
  }

  /** At corresponding nodes of the two trees, two different pairs of children have one hash. */
  ghost predicate TreesCollide(h: Hasher, a: seq<nat>, b: seq<nat>)
  {
    var d, e := DepthFor(|a|), DepthFor(|b|);
    if d <= e then CollidesBelow(h, d, e - d, a, 0, b, 0) else CollidesBelow(h, e, d - e, b, 0, a, 0)
  }

  /**
   * Two successful runs have one root exactly when their trees are the same, but for a collision between
   * the trees. Over equally many ciphertexts that means every leaf is the same; over different numbers
   * of them it does not, since a leaf can stand where the other tree has an inner node.
   */
  lemma RootBindsLeaves(
    lib: Library, a: ComputeInput, b: ComputeInput, p: FHEProcessor, q: FHEProcessor, s: InputPolicy, t: InputPolicy)
    requires Lawful(lib.hasher)
    ensures RunOf(lib, a, p, s).Done? && RunOf(lib, b, q, t).Done? ==>
              && Accepts(lib, a, s) && Accepts(lib, b, t)
              && var x, y := ElementsOf(lib, a, s), ElementsOf(lib, b, t);
                 var oneRoot := RunOf(lib, a, p, s).value.0.merkleRoot == RunOf(lib, b, q, t).value.0.merkleRoot;
                 && (SameTree(lib.hasher, x, y) ==> oneRoot)
                 && (oneRoot ==> TreesCollide(lib.hasher, x, y) || SameTree(lib.hasher, x, y))
                 && (|a.fheInputs.ciphertexts| == |b.fheInputs.ciphertexts| ==>
                       (SameTree(lib.hasher, x, y) <==> x == y))
  {
    hide RunOf;
    hide Lawful;
    hide RootBytes;
    hide ElementsOf;
    hide Accepts;
    hide TreesCollide;
    hide SameTree;
    hide CeilLog2;
    if RunOf(lib, a, p, s).Done? && RunOf(lib, b, q, t).Done? {
      RootIsOfAllLeaves(lib, a, p, s);
      RootIsOfAllLeaves(lib, b, q, t);
      ElementsCount(lib, a, s);
      ElementsCount(lib, b, t);
      EqualRootsSameTree(lib, ElementsOf(lib, a, s), ElementsOf(lib, b, t));
      if |a.fheInputs.ciphertexts| == |b.fheInputs.ciphertexts| {
        SameTreeSameLeaves(lib.hasher, ElementsOf(lib, a, s), ElementsOf(lib, b, t));
      }
    }
  }

  lemma ElementsCount(lib: Library, input: ComputeInput, policy: InputPolicy)
    requires Accepts(lib, input, policy)
    ensures |ElementsOf(lib, input, policy)| == |input.fheInputs.ciphertexts|
  {
  }

  lemma SameTreeSameLeaves(h: Hasher, a: seq<nat>, b: seq<nat>)
    requires |a| == |b|
    ensures SameTree(h, a, b) <==> a == b
  {
    hide CeilLog2;
    DepthIsLeast(|a|, 1);
    assert forall i: nat :: 0 + Width(i, 0) == i;
    if SameTree(h, a, b) {
      forall i | 0 <= i < |a| ensures a[i] == b[i] {
        assert Padded(a, 0 + i) == ElementNode(h, 0, b, 0 + Width(i, 0));
      }
    }
  }

  lemma EqualRootsSameTree(lib: Library, a: seq<nat>, b: seq<nat>)
    requires Lawful(lib.hasher)
    ensures SameTree(lib.hasher, a, b) ==> RootBytes(lib, DepthFor(|a|), a) == RootBytes(lib, DepthFor(|b|), b)
    ensures RootBytes(lib, DepthFor(|a|), a) == RootBytes(lib, DepthFor(|b|), b) ==>
              TreesCollide(lib.hasher, a, b) || SameTree(lib.hasher, a, b)
  {
    hide CollidesBelow;
    hide Refines;
    hide RootBytes;
    hide ElementNode;
    hide DepthFor;
    var h, d, e := lib.hasher, DepthFor(|a|), DepthFor(|b|);
    DepthIsLeast(|a|, 1);
    DepthIsLeast(|b|, 1);
    RootBytesDecide(lib, d, a, e, b);
    if SameTree(h, a, b) {
      if d <= e { RefinedNodeIsEqual(h, d, e - d, a, 0, b, 0); } else { RefinedNodeIsEqual(h, e, d - e, b, 0, a, 0); }
    }
    if ElementNode(h, d, a, 0) == ElementNode(h, e, b, 0) {
      if d <= e { NodeBindsLeaves(h, d, e - d, a, 0, b, 0); } else { NodeBindsLeaves(h, e, d - e, b, 0, a, 0); }
    }
  }

  /** A root's bytes are as good as the root element. */
  lemma RootBytesDecide(lib: Library, d: nat, a: seq<nat>, e: nat, b: seq<nat>)
    requires Lawful(lib.hasher) && d > 0 && e > 0
    ensures RootBytes(lib, d, a) == RootBytes(lib, e, b) <==>
            ElementNode(lib.hasher, d, a, 0) == ElementNode(lib.hasher, e, b, 0)
  {
    hide BigEndian;
    FieldFitsIn32Bytes();
    HashBelowOrder(lib.hasher);
    BigEndianPreservesOrder(ElementNode(lib.hasher, d, a, 0), ElementNode(lib.hasher, e, b, 0), 32);
  }

  // ---------- two numbers of ciphertexts, one root ----------

  /** A program that publishes a field element beside each ciphertext and takes it for the leaf. */
  function PublishedLeaves(): InputPolicy
  {
    InputPolicy((e: PublishedInput) => Ok(Hex(e.metadata)), AllInputs)
  }

  function InputOf(inputs: FHEInputs, values: seq<nat>): ComputeInput
    requires |values| == |inputs.ciphertexts|
  {
    ComputeInput(inputs, seq(|values|, i requires 0 <= i < |values| => PublishedData(None, BigEndian(values[i], 32))))
  }

  lemma ValuesAreAccepted(lib: Library, inputs: FHEInputs, values: seq<nat>)
    requires Lawful(lib.hasher) && lib.decodeParams(inputs.params).Some? && |values| == |inputs.ciphertexts|
    requires forall i :: 0 <= i < |values| ==> values[i] < FIELD_ORDER
    ensures var input := InputOf(inputs, values);
            Accepts(lib, input, PublishedLeaves()) && ElementsOf(lib, input, PublishedLeaves()) == values
  {
    hide Lawful;
    hide Element;
    hide Hex;
    hide BigEndian;
    var params := lib.decodeParams(inputs.params).value;
    var entries := EntriesOf(lib, InputOf(inputs, values), params);
    forall i | 0 <= i < |values|
      ensures var leaf := PublishedLeaves().leaf(entries[i]);
              leaf.Ok? && Element(lib.hasher, leaf.value) == Some(values[i])
    {
      PrintedNodeReads(lib.hasher, values[i]);
    }
  }

  lemma ValuesRun(lib: Library, inputs: FHEInputs, values: seq<nat>, p: FHEProcessor)
    requires Lawful(lib.hasher) && lib.decodeParams(inputs.params).Some? && |values| == |inputs.ciphertexts|
    requires Accepts(lib, InputOf(inputs, values), PublishedLeaves())
    requires lib.commit(p(inputs), lib.decodeParams(inputs.params).value).Some?
    ensures RunOf(lib, InputOf(inputs, values), p, PublishedLeaves()).Done?
  {
    hide RunOf;
    hide Lawful;
    hide RootBytes;
    hide LeafElements;
    hide AllLeaves;
    var input := InputOf(inputs, values);
    AcceptedRun(lib, input, p, PublishedLeaves());
    AllIsEverything(inputs.ciphertexts, EntriesOf(lib, input, lib.decodeParams(inputs.params).value));
  }

  /**
   * Any four ciphertexts and any two: where the program publishes four leaves for the ones and the hashes
   * of the pairs of these leaves for the others, both runs succeed and have one root.
   */
  lemma TwoCountsOneRoot(
    lib: Library, four: FHEInputs, two: FHEInputs, x: seq<nat>, p: FHEProcessor, q: FHEProcessor)
    requires Lawful(lib.hasher) && lib.decodeParams(four.params).Some? && lib.decodeParams(two.params).Some?
    requires lib.commit(p(four), lib.decodeParams(four.params).value).Some?
    requires lib.commit(q(two), lib.decodeParams(two.params).value).Some?
    requires |four.ciphertexts| == |x| == 4 && |two.ciphertexts| == 2
    requires forall i :: 0 <= i < 4 ==> x[i] < FIELD_ORDER
    ensures var y := [lib.hasher.pair(x[0], x[1]), lib.hasher.pair(x[2], x[3])];
            var a := RunOf(lib, InputOf(four, x), p, PublishedLeaves());
            var b := RunOf(lib, InputOf(two, y), q, PublishedLeaves());
            a.Done? && b.Done? && a.value.0.merkleRoot == b.value.0.merkleRoot
  {
    hide RunOf;
    hide Lawful;
    hide Accepts;
    hide ElementsOf;
    hide InputOf;
    hide PublishedLeaves;
    var h := lib.hasher;
    HashBelowOrder(h);
    var y := [h.pair(x[0], x[1]), h.pair(x[2], x[3])];
    ValuesAreAccepted(lib, four, x);
    ValuesAreAccepted(lib, two, y);
    ValuesRun(lib, four, x, p);
    ValuesRun(lib, two, y, q);
    PairsRefine(h, x);
    RootBindsLeaves(lib, InputOf(two, y), InputOf(four, x), q, p, PublishedLeaves(), PublishedLeaves());
  }

  lemma PairsRefine(h: Hasher, x: seq<nat>)
    requires |x| == 4
    ensures SameTree(h, [h.pair(x[0], x[1]), h.pair(x[2], x[3])], x)
  {
    assert CeilLog2(2) == 1 && CeilLog2(4) == 1 + CeilLog2(2);
    assert Pow2(1) == 2 && Pow2(0) == 1;
    var y := [h.pair(x[0], x[1]), h.pair(x[2], x[3])];
    assert ElementNode(h, 1, x, 0) == h.pair(x[0], x[1]);
    assert ElementNode(h, 1, x, 2) == h.pair(x[2], x[3]);
    forall i | 0 <= i < Pow2(1) ensures Padded(y, 0 + i) == ElementNode(h, 1, x, 0 + Width(i, 1)) {
    }
  }

  /** Only the set of selected indices matters: order and repetition in the policy's answer never do. */
  lemma SelectionIsASet(
    lib: Library, input: ComputeInput, processor: FHEProcessor, leaf: LeafFn, s: SelectFn, t: SelectFn)
    requires forall entries, x :: x in s(entries) <==> x in t(entries)
    ensures RunOf(lib, input, processor, InputPolicy(leaf, s)) == RunOf(lib, input, processor, InputPolicy(leaf, t))
  {
    hide Leaves;
    hide SortDedup;
    hide Finish;
    hide Readable;
    forall entries: seq<PublishedInput> ensures SortDedup(s(entries)) == SortDedup(t(entries)) {
      SortDedupMembers(s(entries));
      SortDedupMembers(t(entries));
      assert forall x :: x in s(entries) <==> x in t(entries);
      IncreasingIsUnique(SortDedup(s(entries)), SortDedup(t(entries)));
    }
  }

  /** A policy that selects no input whose published commitment its bytes fail to reproduce. */
  ghost predicate SelectsMatching(select: SelectFn)
  {
    forall entries: seq<PublishedInput>, x: nat :: x in select(entries) && x < |entries| ==>
      entries[x].MatchesCommitment()
  }

  /** The commitment published for an input, if there is one. */
  function Stored(input: ComputeInput, i: nat): Option<seq<byte>>
  {
    if i < |input.published| then input.published[i].commitment else None
  }

  /**
   * Under such a policy every ciphertext that was computed over has the commitment published for it, if
   * one was: a successful run never mixes in bytes that contradict what the E3 program stored.
   */
  lemma MatchingSelectionIsBound(lib: Library, input: ComputeInput, processor: FHEProcessor, policy: InputPolicy)
    requires Lawful(lib.hasher) && SelectsMatching(policy.select)
    ensures RunOf(lib, input, processor, policy).Done? ==>
              && Accepts(lib, input, policy)
              && var params := lib.decodeParams(input.fheInputs.params).value;
                 var ciphertexts := input.fheInputs.ciphertexts;
                 exists indices ::
                   && IsSelection(policy.select, EntriesOf(lib, input, params), indices)
                   && (forall i :: 0 <= i < |indices| ==> indices[i] < |ciphertexts|)
                   && RunOf(lib, input, processor, policy).value.1 ==
                        processor(FHEInputs(At(ciphertexts, indices), input.fheInputs.params))
                   && forall i :: 0 <= i < |indices| && Stored(input, indices[i]).Some? ==>
                        lib.commit(ciphertexts[indices[i]].0, params) == Stored(input, indices[i])
  {
    hide RunOf;
    hide Lawful;
    hide AllLeaves;
    hide LeafElements;
    hide RootBytes;
    if RunOf(lib, input, processor, policy).Done? {
      RunSucceedsExactly(lib, input, processor, policy);
      AcceptedRun(lib, input, processor, policy);
      var params := lib.decodeParams(input.fheInputs.params).value;
      var ciphertexts := input.fheInputs.ciphertexts;
      var entries := EntriesOf(lib, input, params);
      var indices :| IsSelection(policy.select, entries, indices) &&
                     (forall i :: 0 <= i < |indices| ==> indices[i] < |ciphertexts|) &&
                     RunOf(lib, input, processor, policy).value.1 ==
                       processor(FHEInputs(At(ciphertexts, indices), input.fheInputs.params));
      forall i | 0 <= i < |indices| && Stored(input, indices[i]).Some?
        ensures lib.commit(ciphertexts[indices[i]].0, params) == Stored(input, indices[i])
      {
        assert indices[i] in indices;
        assert entries[indices[i]].MatchesCommitment();
      }
    }
  }

  /** Selecting all inputs leaves one choice of indices, and that gives every ciphertext in order. */
  lemma AllIsEverything(ciphertexts: seq<Ciphertext>, entries: seq<PublishedInput>)
    requires |entries| == |ciphertexts|
    ensures forall indices :: IsSelection(AllInputs, entries, indices) ==> indices == AllInputs(entries)
    ensures At(ciphertexts, AllInputs(entries)) == ciphertexts
  {
    forall indices | IsSelection(AllInputs, entries, indices) ensures indices == AllInputs(entries) {
      IncreasingIsUnique(indices, AllInputs(entries));
    }
  }

  /** Under the default policy the processor sees every ciphertext, in order. */
  lemma DefaultSeesEverything(lib: Library, input: ComputeInput, processor: FHEProcessor)
    requires Lawful(lib.hasher) && RunOf(lib, input, processor, Default()).Done?
    ensures RunOf(lib, input, processor, Default()).value.1 == processor(input.fheInputs)
  {
    hide RunOf;
    hide Lawful;
    hide AllLeaves;
    hide LeafElements;
    RunSucceedsExactly(lib, input, processor, Default());
    AcceptedRun(lib, input, processor, Default());
    var params := lib.decodeParams(input.fheInputs.params).value;
    var entries := EntriesOf(lib, input, params);
    var ciphertexts := input.fheInputs.ciphertexts;
    AllIsEverything(ciphertexts, entries);
  }

  /** Under the default policy the first ciphertext that does not decode is named in the error. */
  lemma DefaultNamesTheUndecodable(
    lib: Library, input: ComputeInput, processor: FHEProcessor, params: BfvParams, k: nat)
    requires lib.decodeParams(input.fheInputs.params) == Some(params) && !Mispaired(input)
    requires k < |input.fheInputs.ciphertexts|
    ensures RunOf(lib, input, processor, Default()) == Failed(LeafCommitment(k)) <==>
            lib.commit(input.fheInputs.ciphertexts[k].0, params).None? &&
            forall i :: 0 <= i < k ==> lib.commit(input.fheInputs.ciphertexts[i].0, params).Some?
  {
    hide Finish;
    hide Readable;
    hide Node;
    hide CeilLog2;
    hide SortDedup;
    var entries := EntriesOf(lib, input, params);
    var leaves := Leaves(CommitmentLeaf, entries, |entries|);
    forall i | 0 <= i < |leaves| ensures lib.commit(input.fheInputs.ciphertexts[i].0, params).Some? {
      assert CommitmentLeaf(entries[i]) == Ok(leaves[i]);
    }
    if |leaves| < |entries| {
      assert CommitmentLeaf(entries[|leaves|]).Err?;
    } else {
      assert lib.commit(input.fheInputs.ciphertexts[k].0, params).Some?;
      NoLeafError(lib, input, processor, params);
    }
  }

  lemma NoLeafError(lib: Library, input: ComputeInput, processor: FHEProcessor, params: BfvParams)
    requires lib.decodeParams(input.fheInputs.params) == Some(params)
    requires |Leaves(CommitmentLeaf, EntriesOf(lib, input, params), |EntriesOf(lib, input, params)|)| ==
             |EntriesOf(lib, input, params)|
    ensures RunOf(lib, input, processor, Default()).Failed? ==>
              !RunOf(lib, input, processor, Default()).error.LeafCommitment?
  {
    hide Leaves;
    hide SortDedup;
    hide Node;
    hide HexDecode;
  }

  function CommitmentNumber(lib: Library, bytes: seq<byte>, params: BfvParams): nat
  {
    match lib.commit(bytes, params) case Some(commitment) => FromBigEndian(commitment) case None => 0
  }

  /** Each ciphertext's commitment as a number. */
  function Commitments(lib: Library, ciphertexts: seq<Ciphertext>, params: BfvParams): seq<nat>
  {
    seq(|ciphertexts|, i requires 0 <= i < |ciphertexts| => CommitmentNumber(lib, ciphertexts[i].0, params))
  }

  /** The library's commitments are bytes of a field element. */
  ghost predicate CommitsToElements(lib: Library)
  {
    forall bytes, params :: lib.commit(bytes, params).Some? ==>
      lib.commit(bytes, params).value != [] && FromBigEndian(lib.commit(bytes, params).value) < FIELD_ORDER
  }

  lemma CommitmentLeafIsCommitment(lib: Library, entry: PublishedInput, commitment: seq<byte>)
    requires Lawful(lib.hasher) && entry.recomputed == Some(commitment)
    requires commitment != [] && FromBigEndian(commitment) < FIELD_ORDER
    ensures CommitmentLeaf(entry).Ok?
    ensures Element(lib.hasher, CommitmentLeaf(entry).value) == Some(FromBigEndian(commitment))
  {
    HexIsNotTrimmed(commitment);
  }

  /** Under the default policy the root is that of the ciphertexts' own commitments, each of which exists. */
  lemma DefaultRootIsOfCommitments(lib: Library, input: ComputeInput, processor: FHEProcessor)
    requires Lawful(lib.hasher) && CommitsToElements(lib) && RunOf(lib, input, processor, Default()).Done?
    ensures lib.decodeParams(input.fheInputs.params).Some?
    ensures var params, ciphertexts := lib.decodeParams(input.fheInputs.params).value, input.fheInputs.ciphertexts;
            && (forall i :: 0 <= i < |ciphertexts| ==> lib.commit(ciphertexts[i].0, params).Some?)
            && RunOf(lib, input, processor, Default()).value.0.merkleRoot ==
                 RootBytes(lib, DepthFor(|ciphertexts|), Commitments(lib, ciphertexts, params))
  {
    hide RunOf;
    hide Lawful;
    hide RootBytes;
    hide Element;
    RootIsOfAllLeaves(lib, input, processor, Default());
    var params, ciphertexts := lib.decodeParams(input.fheInputs.params).value, input.fheInputs.ciphertexts;
    var entries := EntriesOf(lib, input, params);
    forall i | 0 <= i < |ciphertexts|
      ensures lib.commit(ciphertexts[i].0, params).Some?
      ensures Element(lib.hasher, CommitmentLeaf(entries[i]).value).Some?
      ensures Element(lib.hasher, CommitmentLeaf(entries[i]).value).value == Commitments(lib, ciphertexts, params)[i]
    {
      assert Default().leaf(entries[i]).Ok?;
      CommitmentLeafIsCommitment(lib, entries[i], lib.commit(ciphertexts[i].0, params).value);
    }
    assert ElementsOf(lib, input, Default()) == Commitments(lib, ciphertexts, params);
  }

  lemma FirstLeafError(leaf: LeafFn, entries: seq<PublishedInput>, k: nat)
    requires k < |entries| && leaf(entries[k]).Err? && forall i :: 0 <= i < k ==> leaf(entries[i]).Ok?
    ensures |Leaves(leaf, entries, |entries|)| == k
  {
  }

  /** The errors of a run, each in its place, for every policy. */
  lemma RunErrors(lib: Library, input: ComputeInput, processor: FHEProcessor, policy: InputPolicy, k: nat)
    ensures lib.decodeParams(input.fheInputs.params).None? ==>
              RunOf(lib, input, processor, policy) == Failed(DecodeParams)
    ensures var n, m := |input.fheInputs.ciphertexts|, |input.published|;
            lib.decodeParams(input.fheInputs.params).Some? && m > 0 && m != n ==>
              RunOf(lib, input, processor, policy) == Failed(MerkleTree(LengthMismatch(n, m)))
    ensures var params, n, m :=
              lib.decodeParams(input.fheInputs.params), |input.fheInputs.ciphertexts|, |input.published|;
            params.Some? && (m == 0 || m == n) && k < n &&
            policy.leaf(EntriesOf(lib, input, params.value)[k]).Err? &&
            (forall i :: 0 <= i < k ==> policy.leaf(EntriesOf(lib, input, params.value)[i]).Ok?) ==>
              RunOf(lib, input, processor, policy) == Failed(policy.leaf(EntriesOf(lib, input, params.value)[k]).error)
  {
    hide Picked;
    hide Readable;
    hide Node;
    hide CeilLog2;
    hide Finish;
    if lib.decodeParams(input.fheInputs.params).Some? {
      var entries := EntriesOf(lib, input, lib.decodeParams(input.fheInputs.params).value);
      if k < |entries| && policy.leaf(entries[k]).Err? && forall i :: 0 <= i < k ==> policy.leaf(entries[i]).Ok? {
        FirstLeafError(policy.leaf, entries, k);
      }
    }
  }

  /** Every input has a leaf, but the selection or the tree may still refuse. */
  ghost predicate LeavesExist(lib: Library, input: ComputeInput, params: BfvParams, leaf: LeafFn)
  {
    forall i :: 0 <= i < |EntriesOf(lib, input, params)| ==> leaf(EntriesOf(lib, input, params)[i]).Ok?
  }

  lemma LeavesAreAll(lib: Library, input: ComputeInput, params: BfvParams, leaf: LeafFn)
    requires LeavesExist(lib, input, params, leaf)
    ensures var entries := EntriesOf(lib, input, params); |Leaves(leaf, entries, |entries|)| == |entries|
  {
  }

  /**
   * With all leaves there, a selection beyond the end is an error that names its least such index; else
   * the process ends exactly if the hash library cannot read some leaf.
   */
  lemma RunRefusals(lib: Library, input: ComputeInput, processor: FHEProcessor, policy: InputPolicy, params: BfvParams)
    requires Lawful(lib.hasher) && lib.decodeParams(input.fheInputs.params) == Some(params) && !Mispaired(input)
    requires LeavesExist(lib, input, params, policy.leaf)
    ensures var n, selected := |input.fheInputs.ciphertexts|, policy.select(EntriesOf(lib, input, params));
            var outcome := RunOf(lib, input, processor, policy);
            && ((exists x :: x in selected && x >= n) ==>
                  exists x :: x in selected && x >= n && outcome == Failed(MerkleTree(OutOfRange(x))) &&
                              forall y :: y in selected && y >= n ==> x <= y)
            && ((forall x :: x in selected ==> x < n) ==>
                  (outcome.Panicked? <==> !AllLeaves(lib, input, params, policy.leaf)))
  {
    hide Leaves;
    hide SortDedup;
    hide HexDecode;
    hide Lawful;
    hide AllLeaves;
    hide Finish;
    hide Pick;
    var ciphertexts := input.fheInputs.ciphertexts;
    var entries := EntriesOf(lib, input, params);
    LeavesAreAll(lib, input, params, policy.leaf);
    AllLeavesMeansLeaves(lib, input, params, policy.leaf);
    PickedIsSelection(ciphertexts, policy.select, entries);
    if Accepts(lib, input, policy) { AcceptedRun(lib, input, processor, policy); }
    if exists x :: x in policy.select(entries) && x >= |ciphertexts| {
      LeastMiss(ciphertexts, policy.select, entries);
    }
  }

  lemma LeastMiss(ciphertexts: seq<Ciphertext>, select: SelectFn, entries: seq<PublishedInput>)
    requires Picked(ciphertexts, select, entries).Err?
    ensures exists x :: x in select(entries) && x >= |ciphertexts| &&
                        Picked(ciphertexts, select, entries) == Err(MerkleTree(OutOfRange(x))) &&
                        forall y :: y in select(entries) && y >= |ciphertexts| ==> x <= y
  {
    hide SortDedup;
    hide Pick;
    var indices := SortDedup(select(entries));
    SortDedupMembers(select(entries));
    var r := Pick(ciphertexts, indices, |indices|);
    var i :| 0 <= i < |indices| && r.error == MerkleTree(OutOfRange(indices[i])) && |ciphertexts| <= indices[i] &&
             forall j :: 0 <= j < i ==> indices[j] < |ciphertexts|;
    assert indices[i] in indices;
    forall y | y in select(entries) && y >= |ciphertexts| ensures indices[i] <= y {
      assert y in indices;
      var j :| 0 <= j < |indices| && indices[j] == y;
    }
  }

  /** Without published entries each input has no stored commitment and no metadata; with them, its own. */
  lemma EntriesArePaired(lib: Library, input: ComputeInput, params: BfvParams, i: nat)
    requires i < |input.fheInputs.ciphertexts| && !Mispaired(input)
    ensures var entry := EntriesOf(lib, input, params)[i];
            && entry.index == i && entry.ciphertext == input.fheInputs.ciphertexts[i].0
            && entry.recomputed == lib.commit(entry.ciphertext, params)
            && (input.published == [] ==> entry.commitment == None && entry.metadata == [])
            && (input.published != [] ==>
                  entry.commitment == input.published[i].commitment && entry.metadata == input.published[i].metadata)
  {
  }

  // ---------- the manager ----------

  /** What is computed, by whom it is proved, and how. */
  datatype ComputeManager<!Output> = ComputeManager(
    input: ComputeInput, prove: (ComputeInput, InputPolicy) -> Output, processor: FHEProcessor)
  {
    function Start(lib: Library, policy: InputPolicy): Outcome<(Output, seq<byte>)>
    {
      match RunOf(lib, input, processor, policy)
      case Failed(e) => Failed(e)
      case Panicked => Panicked
      case Done(result) => Done((prove(input, policy), result.1))
    }
  }

  /** The manager answers exactly when the run does, with the run's own ciphertext and error. */
  lemma StartFollowsRun<Output>(lib: Library, m: ComputeManager<Output>, policy: InputPolicy)
    ensures m.Start(lib, policy).Done? <==> RunOf(lib, m.input, m.processor, policy).Done?
    ensures m.Start(lib, policy).Done? ==>
              m.Start(lib, policy).value == (m.prove(m.input, policy), RunOf(lib, m.input, m.processor, policy).value.1)
    ensures m.Start(lib, policy).Failed? <==> RunOf(lib, m.input, m.processor, policy).Failed?
    ensures m.Start(lib, policy).Failed? ==>
              m.Start(lib, policy).error == RunOf(lib, m.input, m.processor, policy).error
  {
    hide RunOf;
  }

  /**
   * With a provider that proves the Secure Process, the ciphertext that is returned is the one the
   * journal describes, for every policy, and the journal's root covers every input.
   */
  lemma StartPublishesWhatIsProved(
    lib: Library, m: ComputeManager<Outcome<ComputeResult>>, policy: InputPolicy)
    requires Lawful(lib.hasher)
    requires forall input, q :: m.prove(input, q) == Process(lib, input, m.processor, q)
    requires m.Start(lib, policy).Done?
    ensures var (journal, ciphertext) := m.Start(lib, policy).value;
            && Accepts(lib, m.input, policy) && journal.Done?
            && journal.value.ciphertextHash == lib.keccak(ciphertext)
            && lib.commit(ciphertext, lib.decodeParams(m.input.fheInputs.params).value) ==
               Some(journal.value.ciphertextCommitment)
            && journal.value.paramsHash == lib.keccak(m.input.fheInputs.params)
            && journal.value.merkleRoot ==
               RootBytes(lib, DepthFor(|m.input.fheInputs.ciphertexts|), ElementsOf(lib, m.input, policy))
  {
    hide RunOf;
    hide Lawful;
    hide AllLeaves;
    hide LeafElements;
    hide RootBytes;
    RootIsOfAllLeaves(lib, m.input, m.processor, policy);
    AcceptedRun(lib, m.input, m.processor, policy);
  }
}
