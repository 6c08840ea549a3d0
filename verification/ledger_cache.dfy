/** The ledger cache as the descriptor sees it: a map from `(ledger, entry)` to
    the entry-log offset, where offset 0 means "no entry", and a per-ledger
    last entry id that only ever grows. Pages, index files and eviction are
    not part of this model. */
module LedgerCache {
  import opened MachineInts

  /** The entry id `getLastEntry` reports for a ledger without entries. */
  const NoLastEntry: Int64 := -1

  datatype Cache = Cache(offsets: map<(Int64, Int64), int>, last: map<Int64, Int64>)

  /** Every mapped entry is at most its ledger's last entry, and each
      ledger's last entry is itself mapped. */
  predicate Valid(c: Cache)
  {
    && (forall k :: k in c.offsets ==> k.0 in c.last && k.1 <= c.last[k.0])
    && (forall l :: l in c.last ==> (l, c.last[l]) in c.offsets)
  }

  function Empty(): (c: Cache)
    ensures Valid(c)
    ensures c.offsets == map[]
  {
    Cache(map[], map[])
  }

  /** `LedgerCache.putEntryOffset(ledgerId, entryId, offset)`: records the
      offset and raises the ledger's last entry id when `entryId` is larger. */
  function PutEntryOffset(c: Cache, ledgerId: Int64, entryId: Int64, offset: int): (r: Cache)
    ensures r.offsets == c.offsets[(ledgerId, entryId) := offset]
    ensures Valid(c) ==> Valid(r)
  {
    var newLast := if ledgerId in c.last && entryId < c.last[ledgerId] then c.last[ledgerId] else entryId;
    Cache(c.offsets[(ledgerId, entryId) := offset], c.last[ledgerId := newLast])
  }

  /** `LedgerCache.getEntryOffset(ledgerId, entryId)`; 0 when nothing is mapped. */
  function GetEntryOffset(c: Cache, ledgerId: Int64, entryId: Int64): (r: int)
    ensures (ledgerId, entryId) in c.offsets ==> r == c.offsets[(ledgerId, entryId)]
    ensures (ledgerId, entryId) !in c.offsets ==> r == 0
  {
    if (ledgerId, entryId) in c.offsets then c.offsets[(ledgerId, entryId)] else 0
  }

  /** `LedgerCache.getLastEntry(ledgerId)`. */
  function GetLastEntry(c: Cache, ledgerId: Int64): (r: Int64)
    ensures Valid(c) ==> forall e :: (ledgerId, e) in c.offsets ==> e <= r
    ensures Valid(c) && (exists e :: (ledgerId, e) in c.offsets) ==> (ledgerId, r) in c.offsets
    ensures Valid(c) && (forall e :: (ledgerId, e) !in c.offsets) ==> r == NoLastEntry
  {
    if ledgerId in c.last then c.last[ledgerId] else NoLastEntry
  }

  /** A put changes the offset of its own slot and of no other. */
  lemma GetAfterPut(c: Cache, ledgerId: Int64, entryId: Int64, offset: int, l: Int64, e: Int64)
    ensures GetEntryOffset(PutEntryOffset(c, ledgerId, entryId, offset), l, e)
         == if (l, e) == (ledgerId, entryId) then offset else GetEntryOffset(c, l, e)
  {
  }

  /** After a put the ledger's last entry is the larger of the old last entry
      and the id just put; other ledgers keep theirs. */
  lemma LastAfterPut(c: Cache, ledgerId: Int64, entryId: Int64, offset: int, l: Int64)
    ensures GetLastEntry(PutEntryOffset(c, ledgerId, entryId, offset), l)
         == if l != ledgerId then GetLastEntry(c, l)
            else if ledgerId in c.last && entryId < c.last[ledgerId] then c.last[ledgerId]
            else entryId
  {
  }
}
