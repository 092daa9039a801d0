/** A container that writes each change of its value to a store actor before showing it. */
module Persistables {
  import opened Bytes

  type Key = seq<byte>

  /** The library serializer: encoding may fail, and decoding may reject. */
  datatype Serializer<!T> = Serializer(encode: T -> Option<seq<byte>>, decode: seq<byte> -> Option<T>)

  datatype Message =
    | Insert(key: Key, value: seq<byte>, ctx: Option<nat>)
    | Remove(key: Key)

  datatype Failure = NotSet | MutatorFailed | NotSerializable | MailboxRejected | Undecodable

  datatype Outcome = Done | Failed(error: Failure)

  // ---------- the store actor ----------

  function Handle(entries: map<Key, seq<byte>>, m: Message): map<Key, seq<byte>>
  {
    match m
    case Insert(key, value, _) => entries[key := value]
    case Remove(key) => entries - {key}
  }

  /** The entries once the actor has worked through its mailbox; a read queues behind it. */
  function Settled(entries: map<Key, seq<byte>>, mailbox: seq<Message>): map<Key, seq<byte>>
    decreases |mailbox|
  {
    if mailbox == [] then entries else Settled(Handle(entries, mailbox[0]), mailbox[1..])
  }

  lemma {:induction false} SettledSnoc(entries: map<Key, seq<byte>>, mailbox: seq<Message>, m: Message)
    ensures Settled(entries, mailbox + [m]) == Handle(Settled(entries, mailbox), m)
    decreases |mailbox|
  {
    if mailbox == [] {
      assert [m][1..] == [];
    } else {
      assert (mailbox + [m])[1..] == mailbox[1..] + [m];
      SettledSnoc(Handle(entries, mailbox[0]), mailbox[1..], m);
    }
  }

  /** What a container reads for a key: a missing entry and a single zero byte both mean no value. */
  function ReadBack<T>(codec: Serializer<T>, entries: map<Key, seq<byte>>, key: Key): Result<Option<T>, Failure>
  {
    if key !in entries then Ok(None)
    else if entries[key] == [0] then Ok(None)
    else match codec.decode(entries[key])
      case None => Err(Undecodable)
      case Some(value) => Ok(Some(value))
  }

  /** Bytes that decode to what was encoded, and no value that encodes to the marker for none. */
  ghost predicate Faithful<T(!new)>(codec: Serializer<T>)
  {
    forall v: T :: codec.encode(v).Some? ==>
      codec.decode(codec.encode(v).value) == Some(v) && codec.encode(v).value != [0]
  }

  /** The same for one value. */
  ghost predicate FaithfulOn<T>(codec: Serializer<T>, v: T)
  {
    codec.encode(v).Some? ==> codec.decode(codec.encode(v).value) == Some(v) && codec.encode(v).value != [0]
  }

  /** A store actor with a mailbox; `verdicts` decides which sends find room in it. */
  class Store {
    var entries: map<Key, seq<byte>>
    var mailbox: seq<Message>
    var verdicts: seq<bool>

    constructor (entries: map<Key, seq<byte>>, verdicts: seq<bool>)
      ensures this.entries == entries && mailbox == [] && this.verdicts == verdicts
    {
      this.entries := entries;
      this.mailbox := [];
      this.verdicts := verdicts;
    }

    function Contents(): map<Key, seq<byte>>
      reads this
    {
      Settled(entries, mailbox)
    }

    predicate Accepts()
      reads this
    {
      verdicts != [] && verdicts[0]
    }

    method TrySend(m: Message) returns (accepted: bool)
      modifies this
      ensures accepted == old(Accepts())
      ensures Contents() == if accepted then Handle(old(Contents()), m) else old(Contents())
    {
      accepted := Accepts();
      if verdicts != [] {
        verdicts := verdicts[1..];
      }
      if accepted {
        SettledSnoc(entries, mailbox, m);
        mailbox := mailbox + [m];
      }
    }

    /** The actor handles its oldest message; what a read will find does not change. */
    method Deliver()
      modifies this
      ensures Contents() == old(Contents())
      ensures |mailbox| <= |old(mailbox)| && verdicts == old(verdicts)
    {
      if mailbox != [] {
        entries := Handle(entries, mailbox[0]);
        mailbox := mailbox[1..];
      }
    }
  }

  // ---------- the container's operations as steps ----------

  datatype State<!T> = State(data: Option<T>, ctx: Option<nat>, staging: bool, store: map<Key, seq<byte>>)

  datatype Op<!T> =
    | Set(value: T)
    | Mutate(mutator: T -> Option<T>, context: Option<nat>)
    | Clear
    | Stage
    | Commit

  /** Sends a value to the store unless staged; an error leaves the store as it was. */
  function Written<T>(
    codec: Serializer<T>, key: Key, s: State<T>, value: T, accepted: bool): Result<map<Key, seq<byte>>, Failure>
  {
    if s.staging then Ok(s.store)
    else match codec.encode(value)
      case None => Err(NotSerializable)
      case Some(bytes) => if accepted then Ok(s.store[key := bytes]) else Err(MailboxRejected)
  }

  /** The outcome of one operation when its send, if it makes one, is accepted or not. */
  function Do<T>(codec: Serializer<T>, key: Key, s: State<T>, op: Op<T>, accepted: bool): (State<T>, Outcome)
  {
    match op
    case Set(value) =>
      (match Written(codec, key, s, value, accepted)
       case Err(e) => (s, Failed(e))
       case Ok(store) => (s.(data := Some(value), store := store), Done))
    case Mutate(mutator, context) =>
      var started := s.(ctx := context);
      if s.data.None? then (started, Failed(NotSet))
      else
        (match mutator(s.data.value)
         case None => (started, Failed(MutatorFailed))
         case Some(next) =>
           match Written(codec, key, s, next, accepted)
           case Err(e) => (started, Failed(e))
           case Ok(store) => (started.(data := Some(next), store := store), Done))
    case Clear =>
      if accepted then (s.(data := None, store := s.store - {key}), Done) else (s, Failed(MailboxRejected))
    case Stage => (s.(staging := true), Done)
    case Commit =>
      var open := s.(staging := false);
      if s.data.None? then (open, Done)
      else
        (match Written(codec, key, open, s.data.value, accepted)
         case Err(e) => (s.(staging := true), Failed(e))
         case Ok(store) => (open.(store := store), Done))
  }

  // ---------- the container ----------

  class Persistable<T> {
    const codec: Serializer<T>
    const key: Key
    const store: Store
    var data: Option<T>
    var ctx: Option<nat>
    var stagingMode: bool

    constructor (codec: Serializer<T>, key: Key, store: Store, data: Option<T>)
      ensures this.codec == codec && this.key == key && this.store == store
      ensures this.data == data && ctx == None && !stagingMode
    {
      this.codec := codec;
      this.key := key;
      this.store := store;
      this.data := data;
      ctx := None;
      stagingMode := false;
    }

    function Current(): State<T>
      reads this, store
    {
      State(data, ctx, stagingMode, store.Contents())
    }

    /** Reads the container's value from the store. */
    static method Load(codec: Serializer<T>, key: Key, store: Store) returns (r: Result<Persistable<T>, Failure>)
      ensures r.Ok? <==> ReadBack(codec, store.Contents(), key).Ok?
      ensures r.Ok? ==> fresh(r.value) && r.value.store == store && r.value.codec == codec && r.value.key == key
                        && r.value.Current() ==
                             State(ReadBack(codec, store.Contents(), key).value, None, false, store.Contents())
      ensures r.Err? ==> r.error == ReadBack(codec, store.Contents(), key).error
    {
      match ReadBack(codec, store.Contents(), key) {
        case Err(e) => return Err(e);
        case Ok(found) =>
          var p := new Persistable(codec, key, store, found);
          return Ok(p);
      }
    }

    /**
     * Reads the value or takes the default, and saves it. The save may be refused without an error:
     * the container then agrees with its store exactly when the value had been read from there.
     */
    static method LoadOrDefault(codec: Serializer<T>, key: Key, store: Store, default: T)
      returns (r: Result<Persistable<T>, Failure>)
      modifies store
      ensures r.Ok? <==> ReadBack(codec, old(store.Contents()), key).Ok?
      ensures r.Ok? ==>
              var found := ReadBack(codec, old(store.Contents()), key).value;
              var value := if found.Some? then found.value else default;
              && fresh(r.value) && r.value.store == store && r.value.codec == codec && r.value.key == key
              && r.value.Current().data == Some(value) && !r.value.Current().staging
              && (FaithfulOn(codec, value) ==>
                    (Agrees(codec, key, r.value.Current())
                     <==> found.Some? || (codec.encode(default).Some? && old(store.Accepts()))))
              && r.value.Current().ctx == None
              && store.Contents() == if codec.encode(value).Some? && old(store.Accepts())
                                     then old(store.Contents())[key := codec.encode(value).value]
                                     else old(store.Contents())
      ensures r.Err? ==> store.Contents() == old(store.Contents())
                         && r.error == ReadBack(codec, old(store.Contents()), key).error
    {
      ghost var before := store.Contents();
      match ReadBack(codec, store.Contents(), key) {
        case Err(e) => return Err(e);
        case Ok(found) =>
          var p := new Persistable(codec, key, store, Some(if found.Some? then found.value else default));
          var saved := p.WriteValueToStore(p.data.value);
          return Ok(p);
      }
    }

    method WriteValueToStore(value: T) returns (r: Outcome)
      modifies store
      ensures r.Done? <==> Written(codec, key, old(Current()), value, old(store.Accepts())).Ok?
      ensures r.Done? ==> store.Contents() == Written(codec, key, old(Current()), value, old(store.Accepts())).value
      ensures r.Failed? ==> store.Contents() == old(store.Contents())
      ensures r.Failed? ==> r.error == Written(codec, key, old(Current()), value, old(store.Accepts())).error
    {
      if stagingMode {
        return Done;
      }
      var serialized := codec.encode(value);
      if serialized.None? {
        return Failed(NotSerializable);
      }
      var sent := store.TrySend(Insert(key, serialized.value, ctx));
      if !sent {
        return Failed(MailboxRejected);
      }
      return Done;
    }

    method TryMutate(mutator: T -> Option<T>, context: Option<nat>) returns (r: Outcome)
      modifies this, store
      ensures (Current(), r) == Do(codec, key, old(Current()), Mutate(mutator, context), old(store.Accepts()))
    {
      ctx := context;
      if data.None? {
        return Failed(NotSet);
      }
      var next := mutator(data.value);
      if next.None? {
        return Failed(MutatorFailed);
      }
      r := WriteValueToStore(next.value);
      if r.Failed? {
        return;
      }
      data := next;
    }

    method SetValue(value: T)
      modifies this, store
      ensures Current() == Do(codec, key, old(Current()), Set(value), old(store.Accepts())).0
    {
      if stagingMode {
        data := Some(value);
        return;
      }
      var written := WriteValueToStore(value);
      if written.Failed? {
        return;
      }
      data := Some(value);
    }

    method ClearValue()
      modifies this, store
      ensures Current() == Do(codec, key, old(Current()), Clear, old(store.Accepts())).0
    {
      var sent := store.TrySend(Remove(key));
      if sent {
        data := None;
      }
    }

    method EnterStaging()
      modifies this
      ensures Current() == Do(codec, key, old(Current()), Stage, old(store.Accepts())).0
    {
      stagingMode := true;
    }

    method CommitStaged()
      modifies this, store
      ensures Current() == Do(codec, key, old(Current()), Commit, old(store.Accepts())).0
    {
      stagingMode := false;
      if data.Some? {
        var written := WriteValueToStore(data.value);
        if written.Failed? {
          stagingMode := true;
        }
      }
    }
  }

  // ---------- agreement of the container and its store ----------

  /**
   * Outside staging the store reads back the value in memory; a staged container without a value has none
   * stored either.
   */
  ghost predicate Agrees<T>(codec: Serializer<T>, key: Key, s: State<T>)
  {
    && (!s.staging ==> ReadBack(codec, s.store, key) == Ok(s.data))
    && (s.staging && s.data.None? ==> ReadBack(codec, s.store, key) == Ok(None))
  }

  /** Every operation keeps the agreement, and one that fails changes neither the value nor the store. */
  lemma StepAgrees<T(!new)>(codec: Serializer<T>, key: Key, s: State<T>, op: Op<T>, accepted: bool)
    requires Faithful(codec) && Agrees(codec, key, s)
    ensures Agrees(codec, key, Do(codec, key, s, op, accepted).0)
    ensures Do(codec, key, s, op, accepted).1.Failed? ==>
              Do(codec, key, s, op, accepted).0.data == s.data && Do(codec, key, s, op, accepted).0.store == s.store
  {
  }

  /** The states along a run of operations, each send accepted or rejected as told. */
  function RunOps<T>(codec: Serializer<T>, key: Key, s: State<T>, ops: seq<(Op<T>, bool)>): State<T>
    decreases |ops|
  {
    if ops == [] then s else RunOps(codec, key, Do(codec, key, s, ops[0].0, ops[0].1).0, ops[1..])
  }

  /** Over every run of operations and rejections, outside staging the store holds the value in memory. */
  lemma {:induction false} RunsAgree<T(!new)>(codec: Serializer<T>, key: Key, s: State<T>, ops: seq<(Op<T>, bool)>)
    requires Faithful(codec) && Agrees(codec, key, s)
    ensures Agrees(codec, key, RunOps(codec, key, s, ops))
    decreases |ops|
  {
    hide Do;
    hide Faithful;
    hide Agrees;
    if ops != [] {
      StepAgrees(codec, key, s, ops[0].0, ops[0].1);
      RunsAgree(codec, key, Do(codec, key, s, ops[0].0, ops[0].1).0, ops[1..]);
    }
  }

  /** A container never touches another key of the store. */
  lemma {:induction false} OtherKeysUntouched<T>(
    codec: Serializer<T>, key: Key, s: State<T>, ops: seq<(Op<T>, bool)>, other: Key)
    requires other != key
    ensures other in RunOps(codec, key, s, ops).store <==> other in s.store
    ensures other in s.store ==> RunOps(codec, key, s, ops).store[other] == s.store[other]
    decreases |ops|
  {
    if ops != [] {
      OtherKeysUntouched(codec, key, Do(codec, key, s, ops[0].0, ops[0].1).0, ops[1..], other);
    }
  }

  /** While staged, only clearing reaches the store. */
  lemma {:induction false} StagingIsPrivate<T>(codec: Serializer<T>, key: Key, s: State<T>, ops: seq<(Op<T>, bool)>)
    requires s.staging
    requires forall i :: 0 <= i < |ops| ==> !ops[i].0.Clear? && !ops[i].0.Commit?
    ensures RunOps(codec, key, s, ops).store == s.store && RunOps(codec, key, s, ops).staging
    decreases |ops|
  {
    if ops != [] {
      StagingIsPrivate(codec, key, Do(codec, key, s, ops[0].0, ops[0].1).0, ops[1..]);
    }
  }

  /**
   * A written value reads back exactly when its encoding is not the single byte zero; such a value
   * reads back as none, so a container holding it disagrees with its store.
   */
  lemma ZeroByteValuesAreLost<T>(codec: Serializer<T>, key: Key, s: State<T>, value: T)
    requires !s.staging && codec.encode(value).Some? && codec.decode(codec.encode(value).value) == Some(value)
    ensures var after := Do(codec, key, s, Set(value), true).0;
            && after.data == Some(value)
            && (Agrees(codec, key, after) <==> codec.encode(value).value != [0])
            && (codec.encode(value).value == [0] ==> ReadBack(codec, after.store, key) == Ok(None))
  {
  }

  // ---------- what an operation achieves ----------

  /** Whether a value can be written: staging keeps it in memory, otherwise it must encode and be accepted. */
  predicate Writable<T>(codec: Serializer<T>, s: State<T>, value: T, accepted: bool)
  {
    s.staging || (codec.encode(value).Some? && accepted)
  }

  /** Which operations succeed. */
  lemma SucceedsExactly<T>(codec: Serializer<T>, key: Key, s: State<T>, op: Op<T>, accepted: bool)
    ensures Do(codec, key, s, op, accepted).1 == Done <==>
            match op
            case Set(value) => Writable(codec, s, value, accepted)
            case Mutate(mutator, _) =>
              s.data.Some? && mutator(s.data.value).Some? && Writable(codec, s, mutator(s.data.value).value, accepted)
            case Clear => accepted
            case Stage => true
            case Commit => s.data.None? || (codec.encode(s.data.value).Some? && accepted)
  {
  }

  /** A mutation that succeeds has the mutated value in memory and, outside staging, in the store. */
  lemma MutationTakesEffect<T>(
    codec: Serializer<T>, key: Key, s: State<T>, mutator: T -> Option<T>, context: Option<nat>, accepted: bool)
    requires s.data.Some? && mutator(s.data.value).Some?
    requires Writable(codec, s, mutator(s.data.value).value, accepted)
    ensures var next := mutator(s.data.value).value;
            var (after, outcome) := Do(codec, key, s, Mutate(mutator, context), accepted);
            && outcome == Done && after.data == Some(next) && after.ctx == context && after.staging == s.staging
            && after.store == if s.staging then s.store else s.store[key := codec.encode(next).value]
  {
  }

  /** Why a mutation fails, each cause in its place; the context is the new one all the same. */
  lemma MutationFails<T>(
    codec: Serializer<T>, key: Key, s: State<T>, mutator: T -> Option<T>, context: Option<nat>, accepted: bool)
    ensures var (after, outcome) := Do(codec, key, s, Mutate(mutator, context), accepted);
            && after.ctx == context
            && (outcome == Failed(NotSet) <==> s.data.None?)
            && (outcome == Failed(MutatorFailed) <==> s.data.Some? && mutator(s.data.value).None?)
            && (outcome == Failed(NotSerializable) <==>
                s.data.Some? && mutator(s.data.value).Some? && !s.staging &&
                codec.encode(mutator(s.data.value).value).None?)
  {
  }

  /** The value an operation leaves, if it succeeds. */
  function Effect<T>(data: Option<T>, op: Op<T>): Option<T>
  {
    match op
    case Set(value) => Some(value)
    case Mutate(mutator, _) => if data.Some? then mutator(data.value) else data
    case Clear => None
    case Stage | Commit => data
  }

  function Outcomes<T>(codec: Serializer<T>, key: Key, s: State<T>, ops: seq<(Op<T>, bool)>): (r: seq<Outcome>)
    ensures |r| == |ops|
    decreases |ops|
  {
    if ops == [] then []
    else
      var (next, outcome) := Do(codec, key, s, ops[0].0, ops[0].1);
      [outcome] + Outcomes(codec, key, next, ops[1..])
  }

  /** The value after those operations that succeeded, one after the other, with no store in sight. */
  function ValueAfter<T>(data: Option<T>, ops: seq<(Op<T>, bool)>, outcomes: seq<Outcome>): Option<T>
    requires |outcomes| == |ops|
    decreases |ops|
  {
    if ops == [] then data
    else ValueAfter(if outcomes[0].Done? then Effect(data, ops[0].0) else data, ops[1..], outcomes[1..])
  }

  /** Whether the container is staged after them: a commit ends staging if it succeeds, and turns it on if not. */
  function StagedAfter<T>(staging: bool, ops: seq<(Op<T>, bool)>, outcomes: seq<Outcome>): bool
    requires |outcomes| == |ops|
    decreases |ops|
  {
    if ops == [] then staging
    else
      StagedAfter(match ops[0].0 case Stage => true case Commit => outcomes[0].Failed? case _ => staging,
                  ops[1..], outcomes[1..])
  }

  /** The context of the last mutation tried. */
  function ContextAfter<T>(ctx: Option<nat>, ops: seq<(Op<T>, bool)>): Option<nat>
    decreases |ops|
  {
    if ops == [] then ctx
    else ContextAfter(match ops[0].0 case Mutate(_, context) => context case _ => ctx, ops[1..])
  }

  lemma StepEffect<T>(codec: Serializer<T>, key: Key, s: State<T>, op: Op<T>, accepted: bool)
    ensures var (after, outcome) := Do(codec, key, s, op, accepted);
            && after.data == (if outcome.Done? then Effect(s.data, op) else s.data)
            && after.staging == (match op case Stage => true case Commit => outcome.Failed? case _ => s.staging)
            && after.ctx == (match op case Mutate(_, context) => context case _ => s.ctx)
  {
  }

  /**
   * After any run, the value, the staging flag and the context are those of the operations that succeeded;
   * outside staging, by the agreement, the store holds that value too.
   */
  lemma {:induction false} RunIsFoldOfSuccesses<T>(codec: Serializer<T>, key: Key, s: State<T>, ops: seq<(Op<T>, bool)>)
    ensures var after, outcomes := RunOps(codec, key, s, ops), Outcomes(codec, key, s, ops);
            && after.data == ValueAfter(s.data, ops, outcomes)
            && after.staging == StagedAfter(s.staging, ops, outcomes)
            && after.ctx == ContextAfter(s.ctx, ops)
    decreases |ops|
  {
    hide Do;
    hide Effect;
    if ops != [] {
      StepEffect(codec, key, s, ops[0].0, ops[0].1);
      var next := Do(codec, key, s, ops[0].0, ops[0].1).0;
      RunIsFoldOfSuccesses(codec, key, next, ops[1..]);
      assert Outcomes(codec, key, s, ops)[1..] == Outcomes(codec, key, next, ops[1..]);
    }
  }
}
