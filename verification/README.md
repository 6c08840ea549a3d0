# Ledger descriptor of a BookKeeper bookie, in Dafny

A bookie is a BookKeeper storage node. It keeps one `LedgerDescriptorImpl`
per ledger it stores. The descriptor holds:

- the ledger id, fixed at construction;
- the master key, pinned at construction and compared byte for byte by
  `checkAccess`;
- a `fenced` flag that only `setFenced` touches, and that only sets it;
- a reference counter (`incRef` / `decRef`).

It also offers two operations that go through collaborators shared by all
ledgers of the bookie:

- `addEntry(buf)` reads the 16-byte big-endian `(ledgerId, entryId)` prefix of
  the buffer and refuses an entry addressed to another ledger. It then appends
  the whole rewound buffer to the **entry logger** and records
  `(ledgerId, entryId) → position` in the **ledger cache**.
- `readEntry(id)` resolves `-1` to the ledger cache's last entry of the ledger.
  It treats a cache offset of 0 as "no such entry" and otherwise returns what
  the entry logger reads at that offset.

This project models that class in a functional style:

- `bytes.dfy`: the big-endian two's-complement `long` encoding that
  `ByteBuffer.getLong` reads (module `Bytes`), with both round trips proved.
- `machine_ints.dfy`: Java's `long` and `int` (module `MachineInts`). The
  reference counter wraps around explicitly.
- `errors.dfy`: the exceptions the class throws, as an `Error` datatype, plus
  `Result` and `Outcome` wrappers (module `BookieErrors`).
- `entry_logger.dfy`, `ledger_cache.dfy`: the two collaborators (modules
  `EntryLogger`, `LedgerCache`) as abstract maps with small contracts. The
  entry logger is an append-only `position → bytes` map that hands out fresh
  nonzero positions. The ledger cache is a `(ledger, entry) → offset` map plus
  a per-ledger last entry id, which is raised when a larger id is put.
- `ledger_descriptor.dfy`: the descriptor itself (module `LedgerDescriptor`).
  An immutable record plus a `Store` holding the two collaborators; every
  method of the class is a pure function.
- `descriptor_properties.dfy`: the add/read guarantees (module
  `DescriptorProperties`). This includes a store invariant: every indexed
  offset is nonzero and points at a stored entry whose prefix names its slot.
- `descriptor_lifecycle.dfy`: the descriptor under any sequence of calls
  (module `DescriptorLifecycle`). It covers fencing monotonicity, the fixed
  identity, the reference-count arithmetic and the store invariant.

Entry id `-1` has two meanings here. `addEntry` stores whatever id the prefix
carries, including `-1`. `readEntry(-1)`, however, always means "the last
entry". So an entry stored under id `-1` cannot be read back by its id, unless
it is the ledger's last entry. The round-trip lemma
`DescriptorProperties.AddThenRead` therefore excludes that id.

## Model

| member | source | states |
|---|---|---|
| `LedgerDescriptor.CheckAccess` | bookkeeper-server/src/main/java/org/apache/bookkeeper/bookie/LedgerDescriptorImpl.java:54-58 | passes exactly when the presented key equals the pinned master key (same length, same bytes); otherwise fails with `UnauthorizedAccess`; it returns no new descriptor, so nothing changes |
| `LedgerDescriptor.ArraysEquals` | bookkeeper-server/src/main/java/org/apache/bookkeeper/bookie/LedgerDescriptorImpl.java:55 | the length-then-bytewise comparison is true iff the lengths agree and every byte agrees |
| `LedgerDescriptor.SetFenced` | bookkeeper-server/src/main/java/org/apache/bookkeeper/bookie/LedgerDescriptorImpl.java:76-83 | after `setFenced`, `isFenced` is true, and the id, key and counter are untouched |
| `LedgerDescriptor.AddEntry` | bookkeeper-server/src/main/java/org/apache/bookkeeper/bookie/LedgerDescriptorImpl.java:86-106 | a buffer shorter than 8 bytes underflows; a buffer whose first long names another ledger fails with a mismatch naming both ids; a matching buffer shorter than 16 bytes underflows; otherwise it succeeds, returns the long at bytes 8..15, appends the whole buffer at a fresh nonzero position, and changes exactly the ledger-cache slot `(ledgerId, entryId)`, setting it to that position; on failure no store is produced |
| `LedgerDescriptor.ReadEntry` | bookkeeper-server/src/main/java/org/apache/bookkeeper/bookie/LedgerDescriptorImpl.java:109-123 | the id is resolved (-1 becomes the cache's last entry); a cache offset of 0 fails with `NoEntry` naming the ledger and the resolved id; a nonzero offset gives the entry logger's answer: success exactly when the offset holds a stored entry, returning those bytes, and `IoError` otherwise |
| `DescriptorProperties.ReadLastIsReadOfLastEntry` | bookkeeper-server/src/main/java/org/apache/bookkeeper/bookie/LedgerDescriptorImpl.java:114-118 | `readEntry(-1)` behaves exactly like `readEntry(getLastEntry(ledgerId))` |
| `DescriptorProperties.ReadMeaning` | bookkeeper-server/src/main/java/org/apache/bookkeeper/bookie/LedgerDescriptorImpl.java:114-122 | under the store invariant, a read succeeds iff the resolved slot is indexed; its only failure is `NoEntry` naming the resolved id; the bytes returned carry the ledger id and the resolved entry id in their prefix |
| `DescriptorProperties.ReadLastOfEmptyLedger` | bookkeeper-server/src/main/java/org/apache/bookkeeper/bookie/LedgerDescriptorImpl.java:114-121 | reading the last entry of a ledger with no indexed entry fails with `NoEntry` naming the ledger and whatever id `getLastEntry` answered |
| `DescriptorProperties.AddThenRead` | bookkeeper-server/src/main/java/org/apache/bookkeeper/bookie/LedgerDescriptorImpl.java:86-122 | round trip: after a successful add of buffer `b` returning id `e` (not -1), `readEntry(e)` returns `b`, prefix included |
| `DescriptorProperties.AddThenReadLast` | bookkeeper-server/src/main/java/org/apache/bookkeeper/bookie/LedgerDescriptorImpl.java:104-118 | after adding an entry whose id is at least the ledger's last entry, `readEntry(-1)` returns that entry |
| `DescriptorProperties.AddKeepsOtherReads` | bookkeeper-server/src/main/java/org/apache/bookkeeper/bookie/LedgerDescriptorImpl.java:98-122 | under the store invariant, a successful add through any descriptor leaves `readEntry(id)` unchanged for every `(ledger, id)` slot other than the one added; this includes `readEntry(-1)` of every other ledger, and excludes only `readEntry(-1)` of the ledger added to, whose last entry the add may raise |
| `DescriptorProperties.AddKeepsConsistent` | bookkeeper-server/src/main/java/org/apache/bookkeeper/bookie/LedgerDescriptorImpl.java:86-106 | a successful add preserves the store invariant: every indexed offset is nonzero and holds a self-identifying entry |
| `DescriptorProperties.AddOfEncodedEntry` | bookkeeper-server/src/main/java/org/apache/bookkeeper/bookie/LedgerDescriptorImpl.java:86-92 | a buffer built as header(l, e) + payload is accepted by the descriptor of ledger l with result e, and refused with `LedgerMismatch(l, ledgerId)` by any other |
| `DescriptorProperties.AddedEntryIsHeaderAndPayload` | bookkeeper-server/src/main/java/org/apache/bookkeeper/bookie/LedgerDescriptorImpl.java:86-98 | every accepted buffer is exactly the header of (descriptor ledger, returned id) followed by its payload, so the stored entry keeps its prefix |
| `DescriptorProperties.EmptyStore` | bookkeeper-server/src/main/java/org/apache/bookkeeper/bookie/LedgerDescriptorImpl.java:118-121 | the empty log and cache hold no entry and no offset, and satisfy the store invariant |
| `DescriptorProperties.ReadOfEmptyStore` | bookkeeper-server/src/main/java/org/apache/bookkeeper/bookie/LedgerDescriptorImpl.java:118-121 | every read on the empty store fails with `NoEntry` naming the ledger and the resolved id |
| `DescriptorLifecycle.RunKeepsIdentity` | bookkeeper-server/src/main/java/org/apache/bookkeeper/bookie/LedgerDescriptorImpl.java:39-63 | after any sequence of calls `getLedgerId` returns the constructor's id and the master key is the constructor's key |
| `DescriptorLifecycle.RunFencedIff` | bookkeeper-server/src/main/java/org/apache/bookkeeper/bookie/LedgerDescriptorImpl.java:76-83 | after any sequence of calls the descriptor is fenced iff it was fenced before or `setFenced` was called; no call resets the flag |
| `DescriptorLifecycle.FreshDescriptorFencedIff` | bookkeeper-server/src/main/java/org/apache/bookkeeper/bookie/LedgerDescriptorImpl.java:43-51 | a freshly constructed descriptor is unfenced, and stays so until `setFenced` is called |
| `DescriptorLifecycle.RunRefCount` | bookkeeper-server/src/main/java/org/apache/bookkeeper/bookie/LedgerDescriptorImpl.java:65-73 | after any calls the counter is the initial value plus #incRef − #decRef, wrapped to 32 bits; no lower bound is assumed |
| `DescriptorLifecycle.IncDecCancel` | bookkeeper-server/src/main/java/org/apache/bookkeeper/bookie/LedgerDescriptorImpl.java:65-73 | `incRef` then `decRef` (and the reverse order) restores the descriptor, including at the ends of the `int` range |
| `DescriptorLifecycle.FailuresChangeNothing` | bookkeeper-server/src/main/java/org/apache/bookkeeper/bookie/LedgerDescriptorImpl.java:54-91 | `checkAccess`, the queries, `readEntry` and a refused `addEntry` leave descriptor, entry log and ledger cache unchanged |
| `DescriptorLifecycle.RunKeepsConsistent` | bookkeeper-server/src/main/java/org/apache/bookkeeper/bookie/LedgerDescriptorImpl.java:86-122 | the store invariant holds after any sequence of calls starting from a consistent store |
| `LedgerDescriptor.Create` | bookkeeper-server/src/main/java/org/apache/bookkeeper/bookie/LedgerDescriptorImpl.java:46-51 | a new descriptor answers the given ledger id, holds the given key, is unfenced and has counter 0 |
| `LedgerDescriptor.GetLedgerId` | bookkeeper-server/src/main/java/org/apache/bookkeeper/bookie/LedgerDescriptorImpl.java:61-63 | returns the descriptor's ledger id; with `RunKeepsIdentity`, that is always the constructor's id |
| `LedgerDescriptor.IsFenced` | bookkeeper-server/src/main/java/org/apache/bookkeeper/bookie/LedgerDescriptorImpl.java:81-83 | returns the fenced flag; with `RunFencedIff`, it is true iff `setFenced` has been called |
| `LedgerDescriptor.IncRef` | bookkeeper-server/src/main/java/org/apache/bookkeeper/bookie/LedgerDescriptorImpl.java:66-68 | the counter grows by one modulo 2^32; ledger id, key and flag are unchanged |
| `LedgerDescriptor.DecRef` | bookkeeper-server/src/main/java/org/apache/bookkeeper/bookie/LedgerDescriptorImpl.java:71-73 | the counter shrinks by one modulo 2^32, with no lower bound; ledger id, key and flag are unchanged |
| `LedgerDescriptor.ResolveEntryId` | bookkeeper-server/src/main/java/org/apache/bookkeeper/bookie/LedgerDescriptorImpl.java:114-116 | an id other than -1 is looked up as given; -1 is replaced by the cache's last entry of the ledger |
| `Bytes.GetLong` | bookkeeper-server/src/main/java/org/apache/bookkeeper/bookie/LedgerDescriptorImpl.java:87-92 | the eight bytes at the index, read most significant first, taken as a two's-complement `long`: congruent to their unsigned value modulo 2^64, and negative exactly when the first byte's top bit is set |
| `LedgerCache.GetEntryOffset` | bookkeeper-server/src/main/java/org/apache/bookkeeper/bookie/LedgerDescriptorImpl.java:118 | the mapped offset of the slot, and 0 when the slot is not mapped |
| `LedgerCache.GetLastEntry` | bookkeeper-server/src/main/java/org/apache/bookkeeper/bookie/LedgerDescriptorImpl.java:115 | in a valid cache: an upper bound of every mapped entry id of the ledger, itself mapped when the ledger has entries, and -1 when it has none |
| `EntryLogger.ReadEntry` | bookkeeper-server/src/main/java/org/apache/bookkeeper/bookie/LedgerDescriptorImpl.java:122 | succeeds exactly when the offset holds a stored entry, returns those bytes, and otherwise fails with `IoError` |
| `Bytes.PutLongOfGetLong` | bookkeeper-server/src/main/java/org/apache/bookkeeper/bookie/LedgerDescriptorImpl.java:87 | the eight bytes read by `getLong` are exactly the encoding of the value read |
| `Bytes.HeaderRoundTrip` | bookkeeper-server/src/main/java/org/apache/bookkeeper/bookie/LedgerDescriptorImpl.java:87-92 | a header built from (l, e) reads back as ledger id l at byte 0 and entry id e at byte 8, whatever follows |
| `Bytes.HeaderSplit` | bookkeeper-server/src/main/java/org/apache/bookkeeper/bookie/LedgerDescriptorImpl.java:87-93 | every buffer of 16 or more bytes is the header of the two longs it carries followed by the rest |
| `EntryLogger.AddEntry` | bookkeeper-server/src/main/java/org/apache/bookkeeper/bookie/LedgerDescriptorImpl.java:98 | the entry logger appends at a fresh nonzero position and changes no other position |
| `EntryLogger.ReadAfterAdd` | bookkeeper-server/src/main/java/org/apache/bookkeeper/bookie/LedgerDescriptorImpl.java:122 | the entry logger reads back at the returned position exactly the bytes appended |
| `EntryLogger.AddKeepsStored` | bookkeeper-server/src/main/java/org/apache/bookkeeper/bookie/LedgerDescriptorImpl.java:122 | appending never changes what an already stored position reads back |
| `LedgerCache.PutEntryOffset` | bookkeeper-server/src/main/java/org/apache/bookkeeper/bookie/LedgerDescriptorImpl.java:104 | a put sets exactly the one slot and keeps the cache's last-entry invariant |
| `LedgerCache.GetAfterPut` | bookkeeper-server/src/main/java/org/apache/bookkeeper/bookie/LedgerDescriptorImpl.java:118 | after a put, the offset read for its own slot is the one put, and every other slot reads as before |
| `LedgerCache.LastAfterPut` | bookkeeper-server/src/main/java/org/apache/bookkeeper/bookie/LedgerDescriptorImpl.java:115 | after a put the ledger's last entry is the larger of the old last entry and the id put, or the id put when the ledger had no entries; other ledgers keep theirs |

## Left out

- Concurrency: `synchronized` on `incRef`/`decRef` and `volatile` on `fenced` are not modelled; calls are taken one at a time.
- Fenced-write rejection: `addEntry` here does not look at `fenced`; the refusal of writes to a fenced ledger lives in code outside this class and is not modelled.
- `EntryLogger` and `LedgerCache` are not part of this model beyond the abstract contracts above. Files, framing, pages, eviction and flushing are left out. So is header verification inside the entry logger's read. Entry-log positions are unbounded integers; real positions are `(logId << 32) | position` longs.
- `LedgerCache.GetLastEntry` for a ledger with no entries returns -1 in this model. The real cache's answer in that case is not part of this model. The lemmas `DescriptorProperties.ReadLastIsReadOfLastEntry` and `DescriptorProperties.ReadLastOfEmptyLedger` hold whatever it is.
- `LedgerDescriptor.AddEntry`: the `IOException`s that `entryLogger.addEntry` (line 98) and `ledgerCache.putEntryOffset` (line 104) may throw are not modelled; the collaborators always succeed here. So the case where the append has already happened and the indexing then fails, leaving an entry in the log that the cache does not index, is not represented.
- `LedgerDescriptor.ReadEntry`: the `IOException`s that `ledgerCache.getLastEntry` (line 115) and `ledgerCache.getEntryOffset` (line 118) may throw are not modelled. Of the entry logger's read failures, only "no entry at this offset" is modelled, as `IoError`.
- `LedgerDescriptor.Create`: the constructor keeps the caller's key array without copying it, so the caller can still change the key bytes afterwards; the model stores an immutable sequence, and the claim that the key never changes holds only for the descriptor's own operations.
- `LedgerDescriptor.CheckAccess`: the `null` arrays that `Arrays.equals` accepts are not modelled; keys are sequences, which cannot be null.
- `LedgerDescriptor.AddEntry`: the buffer is taken to be positioned at 0 with its limit at its end. A buffer that is too short fails with `BufferUnderflow` at the same point where `getLong` would throw.
- The logger's `ledgerId` / `entryId` arguments to `EntryLogger.ReadEntry` are accepted but unused, because the contract this class relies on reads by offset alone.
- The network client, the server configuration, the benchmarks and the integration tests in the repository are I/O, configuration and timing code with no logic of this class; they are not modelled.
