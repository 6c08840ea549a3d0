/** `LedgerDescriptorImpl`: the state a bookie keeps for one ledger (its id,
    its pinned master key, the fenced flag and a reference counter) and the
    two operations that go through the shared entry logger and ledger cache. */
module LedgerDescriptor {
  import opened MachineInts
  import opened Bytes
  import opened BookieErrors
  import EntryLogger
  import LedgerCache

  datatype Descriptor = Descriptor(ledgerId: Int64, masterKey: seq<Byte>, fenced: bool, refCnt: Int32)

  /** The collaborators shared by all descriptors of one bookie. */
  datatype Store = Store(log: EntryLogger.Log, cache: LedgerCache.Cache)

  /** The entry id that `readEntry(-1)` stands for. */
  const LastEntryRequest: Int64 := -1

  /** The constructor: a new descriptor answers the given ledger id, accepts
      exactly the given key, is unfenced and its counter is 0. */
  function Create(masterKey: seq<Byte>, ledgerId: Int64): (d: Descriptor)
    ensures GetLedgerId(d) == ledgerId
    ensures d.masterKey == masterKey
    ensures !IsFenced(d)
    ensures d.refCnt == 0
  {
    Descriptor(ledgerId, masterKey, false, 0)
  }

  /** `getLedgerId()`. */
  function GetLedgerId(d: Descriptor): (r: Int64)
    ensures r == d.ledgerId
  {
    d.ledgerId
  }

  /** `isFenced()`. */
  function IsFenced(d: Descriptor): (r: bool)
    ensures r <==> d.fenced
  {
    d.fenced
  }

  function SetFenced(d: Descriptor): (d': Descriptor)
    ensures IsFenced(d')
    ensures d'.ledgerId == d.ledgerId && d'.masterKey == d.masterKey && d'.refCnt == d.refCnt
  {
    d.(fenced := true)
  }

  /** `incRef()`: one more reference, modulo 2^32 as Java's `int` wraps. */
  function IncRef(d: Descriptor): (d': Descriptor)
    ensures d'.ledgerId == d.ledgerId && d'.masterKey == d.masterKey && d'.fenced == d.fenced
    ensures (d'.refCnt - d.refCnt - 1) % TwoTo32 == 0
  {
    d.(refCnt := Wrap32(d.refCnt + 1))
  }

  /** `decRef()`: one reference fewer, modulo 2^32, with no lower bound. */
  function DecRef(d: Descriptor): (d': Descriptor)
    ensures d'.ledgerId == d.ledgerId && d'.masterKey == d.masterKey && d'.fenced == d.fenced
    ensures (d'.refCnt - d.refCnt + 1) % TwoTo32 == 0
  {
    d.(refCnt := Wrap32(d.refCnt - 1))
  }

  /** `Arrays.equals` on two non-null byte arrays: same length, then byte by byte. */
  function ArraysEquals(a: seq<Byte>, b: seq<Byte>): (r: bool)
    ensures r <==> |a| == |b| && forall i :: 0 <= i < |a| ==> a[i] == b[i]
  {
    if |a| != |b| then false
    else if |a| == 0 then true
    else a[0] == b[0] && ArraysEquals(a[1..], b[1..])
  }

  /** `checkAccess(masterKey)`: passes exactly when the key equals the pinned
      one; it never changes the descriptor. */
  function CheckAccess(d: Descriptor, masterKey: seq<Byte>): (r: Outcome)
    ensures r.Pass? <==> masterKey == d.masterKey
    ensures r.Fail? ==> r.error == UnauthorizedAccess
  {
    if ArraysEquals(d.masterKey, masterKey) then Pass else Fail(UnauthorizedAccess)
  }

  /** `addEntry(entry)` with the buffer positioned at 0: reads the ledger id,
      rejects a foreign entry, reads the entry id, appends the whole rewound
      buffer to the entry log and records its position in the ledger cache.
      On the failures modelled here no store is returned: the log and the cache
      stay as they were. */
  function AddEntry(d: Descriptor, st: Store, entry: seq<Byte>): (r: Result<(Store, Int64)>)
    requires EntryLogger.Valid(st.log)
    ensures |entry| < LongWidth ==> r == Err(BufferUnderflow)
    ensures |entry| >= LongWidth && GetLong(entry, 0) != d.ledgerId
            ==> r == Err(LedgerMismatch(GetLong(entry, 0), d.ledgerId))
    ensures LongWidth <= |entry| < HeaderWidth && GetLong(entry, 0) == d.ledgerId
            ==> r == Err(BufferUnderflow)
    ensures r.Ok? <==> |entry| >= HeaderWidth && GetLong(entry, 0) == d.ledgerId
    ensures r.Ok? ==> r.value.1 == GetLong(entry, LongWidth)
    ensures r.Ok? ==>
              var (st', e) := r.value;
              && (d.ledgerId, e) in st'.cache.offsets
              && var pos := st'.cache.offsets[(d.ledgerId, e)];
              && pos != 0
              && pos !in st.log.entries
              && st'.log.entries == st.log.entries[pos := entry]
              && st'.cache.offsets == st.cache.offsets[(d.ledgerId, e) := pos]
    ensures r.Ok? ==> EntryLogger.Valid(r.value.0.log)
    ensures r.Ok? ==> forall l :: l != d.ledgerId ==>
              LedgerCache.GetLastEntry(r.value.0.cache, l) == LedgerCache.GetLastEntry(st.cache, l)
  {
    if |entry| < LongWidth then Err(BufferUnderflow)
    else
      var ledgerId := GetLong(entry, 0);
      if ledgerId != d.ledgerId then Err(LedgerMismatch(ledgerId, d.ledgerId))
      else if |entry| < HeaderWidth then Err(BufferUnderflow)
      else
        var entryId := GetLong(entry, LongWidth);
        var (log', pos) := EntryLogger.AddEntry(st.log, ledgerId, entry);
        var cache' := LedgerCache.PutEntryOffset(st.cache, ledgerId, entryId, pos);
        Ok((Store(log', cache'), entryId))
  }

  /** The entry id `readEntry` actually looks up: -1 stands for the ledger
      cache's last entry of this ledger. */
  function ResolveEntryId(d: Descriptor, st: Store, entryId: Int64): (r: Int64)
    ensures entryId != LastEntryRequest ==> r == entryId
    ensures entryId == LastEntryRequest ==> r == LedgerCache.GetLastEntry(st.cache, d.ledgerId)
  {
    if entryId == LastEntryRequest then LedgerCache.GetLastEntry(st.cache, d.ledgerId) else entryId
  }

  /** `readEntry(entryId)`: offset 0 in the cache means no such entry, and the
      exception names the resolved entry id; otherwise the entry logger is
      asked for the bytes at that offset. */
  function ReadEntry(d: Descriptor, st: Store, entryId: Int64): (r: Result<seq<Byte>>)
    ensures var e := ResolveEntryId(d, st, entryId);
            var offset := LedgerCache.GetEntryOffset(st.cache, d.ledgerId, e);
            && (offset == 0 ==> r == Err(NoEntry(d.ledgerId, e)))
            && (offset != 0 ==> (r.Ok? <==> offset in st.log.entries) && (r.Err? ==> r.error == IoError))
    ensures entryId != LastEntryRequest ==>
              (r == Err(NoEntry(d.ledgerId, entryId)) <==> LedgerCache.GetEntryOffset(st.cache, d.ledgerId, entryId) == 0)
    ensures r.Ok? ==>
              var offset := LedgerCache.GetEntryOffset(st.cache, d.ledgerId, ResolveEntryId(d, st, entryId));
              offset != 0 && offset in st.log.entries && r.value == st.log.entries[offset]
  {
    var e := ResolveEntryId(d, st, entryId);
    var offset := LedgerCache.GetEntryOffset(st.cache, d.ledgerId, e);
    if offset == 0 then Err(NoEntry(d.ledgerId, e))
    else EntryLogger.ReadEntry(st.log, d.ledgerId, e, offset)
  }
}
