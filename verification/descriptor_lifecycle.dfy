/** A descriptor over any sequence of its operations: the ledger id and master
    key never change, the fenced flag only ever goes from false to true, the
    reference counter is the wrapped net count of `incRef`s and `decRef`s,
    and the store invariant holds throughout. */
module DescriptorLifecycle {
  import opened MachineInts
  import opened Bytes
  import opened BookieErrors
  import EntryLogger
  import opened LedgerDescriptor
  import opened DescriptorProperties

  /** The calls a bookie makes on one descriptor. */
  datatype Op =
    | CheckAccessOp(masterKey: seq<Byte>)
    | GetLedgerIdOp
    | IncRefOp
    | DecRefOp
    | SetFencedOp
    | IsFencedOp
    | AddEntryOp(entry: seq<Byte>)
    | ReadEntryOp(entryId: Int64)

  datatype Node = Node(desc: Descriptor, store: Store)

  /** One call. Queries and failed calls leave the descriptor and the store
      as they were; a successful add replaces the store. */
  function Step(n: Node, op: Op): (n': Node)
    requires EntryLogger.Valid(n.store.log)
    ensures EntryLogger.Valid(n'.store.log)
  {
    match op
    case IncRefOp => n.(desc := IncRef(n.desc))
    case DecRefOp => n.(desc := DecRef(n.desc))
    case SetFencedOp => n.(desc := SetFenced(n.desc))
    case AddEntryOp(entry) =>
      (match AddEntry(n.desc, n.store, entry)
       case Ok((st', _)) => n.(store := st')
       case Err(_) => n)
    case _ => n
  }

  function Run(n: Node, ops: seq<Op>): (n': Node)
    requires EntryLogger.Valid(n.store.log)
    ensures EntryLogger.Valid(n'.store.log)
    decreases |ops|
  {
    if |ops| == 0 then n else Run(Step(n, ops[0]), ops[1..])
  }

  /** Number of `incRef` calls minus number of `decRef` calls. */
  function NetRefs(ops: seq<Op>): int
  {
    if |ops| == 0 then 0
    else (match ops[0] case IncRefOp => 1 case DecRefOp => -1 case _ => 0) + NetRefs(ops[1..])
  }

  /** `getLedgerId()` always answers the constructor's ledger id, and the
      master key is never replaced. */
  lemma {:induction false} RunKeepsIdentity(n: Node, ops: seq<Op>)
    requires EntryLogger.Valid(n.store.log)
    ensures GetLedgerId(Run(n, ops).desc) == GetLedgerId(n.desc)
    ensures Run(n, ops).desc.masterKey == n.desc.masterKey
    decreases |ops|
  {
    if |ops| > 0 {
      RunKeepsIdentity(Step(n, ops[0]), ops[1..]);
    }
  }

  /** Fencing is monotonic: after any calls the descriptor is fenced exactly
      when it was fenced before or `setFenced` was among them. */
  lemma {:induction false} RunFencedIff(n: Node, ops: seq<Op>)
    requires EntryLogger.Valid(n.store.log)
    ensures IsFenced(Run(n, ops).desc) <==> IsFenced(n.desc) || SetFencedOp in ops
    decreases |ops|
  {
    if |ops| > 0 {
      RunFencedIff(Step(n, ops[0]), ops[1..]);
      assert ops == [ops[0]] + ops[1..];
    }
  }

  /** A freshly constructed descriptor is unfenced until `setFenced` is called. */
  lemma FreshDescriptorFencedIff(masterKey: seq<Byte>, ledgerId: Int64, st: Store, ops: seq<Op>)
    requires EntryLogger.Valid(st.log)
    ensures !IsFenced(Create(masterKey, ledgerId))
    ensures IsFenced(Run(Node(Create(masterKey, ledgerId), st), ops).desc) <==> SetFencedOp in ops
  {
    RunFencedIff(Node(Create(masterKey, ledgerId), st), ops);
  }

  /** The counter after any calls is the starting counter plus the net number
      of `incRef`s, wrapped to 32 bits as Java's `int` arithmetic does. */
  lemma {:induction false} RunRefCount(n: Node, ops: seq<Op>)
    requires EntryLogger.Valid(n.store.log)
    ensures Run(n, ops).desc.refCnt == Wrap32(n.desc.refCnt + NetRefs(ops))
    decreases |ops|
  {
    if |ops| > 0 {
      var n1 := Step(n, ops[0]);
      RunRefCount(n1, ops[1..]);
      match ops[0]
      case IncRefOp => WrapAdd(n.desc.refCnt + 1, NetRefs(ops[1..]));
      case DecRefOp => WrapAdd(n.desc.refCnt - 1, NetRefs(ops[1..]));
      case _ =>
    }
  }

  /** `incRef` followed by `decRef`, and `decRef` followed by `incRef`, leave
      the counter as it was, even at the ends of the `int` range. */
  lemma IncDecCancel(d: Descriptor)
    ensures DecRef(IncRef(d)) == d
    ensures IncRef(DecRef(d)) == d
  {
    WrapAdd(d.refCnt + 1, -1);
    WrapAdd(d.refCnt - 1, 1);
  }

  /** `checkAccess`, the queries, `readEntry` and a failed `addEntry` change
      neither the descriptor nor the entry log nor the ledger cache. */
  lemma FailuresChangeNothing(n: Node, op: Op)
    requires EntryLogger.Valid(n.store.log)
    requires || op.CheckAccessOp? || op.GetLedgerIdOp? || op.IsFencedOp? || op.ReadEntryOp?
             || (op.AddEntryOp? && AddEntry(n.desc, n.store, op.entry).Err?)
    ensures Step(n, op) == n
  {
  }

  /** The store invariant holds after any calls. */
  lemma {:induction false} RunKeepsConsistent(n: Node, ops: seq<Op>)
    requires Consistent(n.store)
    ensures Consistent(Run(n, ops).store)
    decreases |ops|
  {
    if |ops| > 0 {
      StepKeepsConsistent(n, ops[0]);
      RunKeepsConsistent(Step(n, ops[0]), ops[1..]);
    }
  }

  lemma StepKeepsConsistent(n: Node, op: Op)
    requires Consistent(n.store)
    ensures Consistent(Step(n, op).store)
  {
    if op.AddEntryOp? {
      var r := AddEntry(n.desc, n.store, op.entry);
      if r.Ok? {
        AddKeepsConsistent(n.desc, n.store, op.entry);
        assert Step(n, op).store == r.value.0;
      } else {
        assert Step(n, op).store == n.store;
      }
    } else {
      assert Step(n, op).store == n.store;
    }
  }
}
