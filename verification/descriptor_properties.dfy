/** What adding and reading entries through a descriptor guarantee, given the
    entry logger and ledger cache contracts: the round trip, the meaning of
    entry id -1, the zero-offset sentinel, and the store invariant that every
    indexed offset holds a self-identifying entry. */
module DescriptorProperties {
  import opened MachineInts
  import opened Bytes
  import opened BookieErrors
  import EntryLogger
  import LedgerCache
  import opened LedgerDescriptor

  /** The store invariant: the collaborators are valid, and every offset in the
      ledger cache is nonzero and points at a stored entry whose 16-byte
      prefix names the slot it is indexed under. */
  predicate Consistent(st: Store)
  {
    && EntryLogger.Valid(st.log)
    && LedgerCache.Valid(st.cache)
    && forall k :: k in st.cache.offsets ==>
         && st.cache.offsets[k] != 0
         && st.cache.offsets[k] in st.log.entries
         && Identifies(st.log.entries[st.cache.offsets[k]], k.0, k.1)
  }

  /** A bookie's collaborators before anything is added. */
  function EmptyStore(): (st: Store)
    ensures Consistent(st)
    ensures st.log.entries == map[] && st.cache.offsets == map[]
  {
    Store(EntryLogger.Empty(), LedgerCache.Empty())
  }

  /** Every read on the empty store fails with `NoEntry` naming the ledger and
      the resolved id. */
  lemma ReadOfEmptyStore(d: Descriptor, entryId: Int64)
    ensures ReadEntry(d, EmptyStore(), entryId) == Err(NoEntry(d.ledgerId, ResolveEntryId(d, EmptyStore(), entryId)))
  {
  }

  /** A successful add keeps the store invariant. */
  lemma AddKeepsConsistent(d: Descriptor, st: Store, entry: seq<Byte>)
    requires Consistent(st)
    requires AddEntry(d, st, entry).Ok?
    ensures Consistent(AddEntry(d, st, entry).value.0)
  {
    var (st', e) := AddEntry(d, st, entry).value;
    var pos := st'.cache.offsets[(d.ledgerId, e)];
    forall k | k in st'.cache.offsets
      ensures && st'.cache.offsets[k] != 0
              && st'.cache.offsets[k] in st'.log.entries
              && Identifies(st'.log.entries[st'.cache.offsets[k]], k.0, k.1)
    {
      if k != (d.ledgerId, e) {
        assert st'.cache.offsets[k] == st.cache.offsets[k];
        assert st.cache.offsets[k] != pos;
      }
    }
  }

  /** `readEntry(-1)` is `readEntry(getLastEntry(ledgerId))`. */
  lemma ReadLastIsReadOfLastEntry(d: Descriptor, st: Store)
    ensures ReadEntry(d, st, LastEntryRequest) == ReadEntry(d, st, LedgerCache.GetLastEntry(st.cache, d.ledgerId))
  {
  }

  /** Under the invariant a read fails only with `NoEntry`, and it succeeds
      exactly when the resolved slot is indexed; what it returns is the stored
      entry, whose prefix names the ledger and the resolved entry id. */
  lemma ReadMeaning(d: Descriptor, st: Store, entryId: Int64)
    requires Consistent(st)
    ensures var e := ResolveEntryId(d, st, entryId);
            && (ReadEntry(d, st, entryId).Ok? <==> (d.ledgerId, e) in st.cache.offsets)
            && (ReadEntry(d, st, entryId).Err? ==> ReadEntry(d, st, entryId).error == NoEntry(d.ledgerId, e))
            && (ReadEntry(d, st, entryId).Ok? ==> Identifies(ReadEntry(d, st, entryId).value, d.ledgerId, e))
  {
  }

  /** Reading the last entry of a ledger without entries fails with
      `NoEntry` naming whatever id `getLastEntry` answered. */
  lemma ReadLastOfEmptyLedger(d: Descriptor, st: Store)
    requires forall e: Int64 :: (d.ledgerId, e) !in st.cache.offsets
    ensures ReadEntry(d, st, LastEntryRequest) == Err(NoEntry(d.ledgerId, LedgerCache.GetLastEntry(st.cache, d.ledgerId)))
  {
    var last := LedgerCache.GetLastEntry(st.cache, d.ledgerId);
    assert (d.ledgerId, last) !in st.cache.offsets;
  }

  /** Round trip: after a successful add of `entry` under id `e`, reading `e`
      returns the whole buffer, header included. The id -1 is excluded because
      `readEntry(-1)` means the last entry, not the entry numbered -1. */
  lemma AddThenRead(d: Descriptor, st: Store, entry: seq<Byte>)
    requires EntryLogger.Valid(st.log)
    requires AddEntry(d, st, entry).Ok?
    requires AddEntry(d, st, entry).value.1 != LastEntryRequest
    ensures ReadEntry(d, AddEntry(d, st, entry).value.0, AddEntry(d, st, entry).value.1) == Ok(entry)
  {
  }

  /** After adding an entry whose id is not below the ledger's last entry,
      `readEntry(-1)` returns that entry. */
  lemma AddThenReadLast(d: Descriptor, st: Store, entry: seq<Byte>)
    requires EntryLogger.Valid(st.log)
    requires AddEntry(d, st, entry).Ok?
    requires d.ledgerId in st.cache.last ==> AddEntry(d, st, entry).value.1 >= st.cache.last[d.ledgerId]
    ensures ReadEntry(d, AddEntry(d, st, entry).value.0, LastEntryRequest) == Ok(entry)
  {
    var (st', e) := AddEntry(d, st, entry).value;
    assert LedgerCache.GetLastEntry(st'.cache, d.ledgerId) == e;
  }

  /** An add through any descriptor, to any ledger, leaves the read of every
      other entry unchanged, and `readEntry(-1)` of every other ledger too. */
  lemma AddKeepsOtherReads(d: Descriptor, other: Descriptor, st: Store, entry: seq<Byte>, entryId: Int64)
    requires Consistent(st)
    requires AddEntry(other, st, entry).Ok?
    requires entryId != LastEntryRequest || other.ledgerId != d.ledgerId
    requires (other.ledgerId, AddEntry(other, st, entry).value.1) != (d.ledgerId, entryId)
    ensures ReadEntry(d, AddEntry(other, st, entry).value.0, entryId) == ReadEntry(d, st, entryId)
  {
    var st' := AddEntry(other, st, entry).value.0;
    if (d.ledgerId, entryId) in st.cache.offsets {
      assert st.cache.offsets[(d.ledgerId, entryId)] in st.log.entries;
    }
  }

  /** Adding a client-built entry, header plus payload, through the descriptor
      of its ledger returns the entry id it was built with; through the
      descriptor of any other ledger it is refused. */
  lemma AddOfEncodedEntry(d: Descriptor, st: Store, ledgerId: Int64, entryId: Int64, payload: seq<Byte>)
    requires EntryLogger.Valid(st.log)
    ensures var r := AddEntry(d, st, EntryHeader(ledgerId, entryId) + payload);
            && (ledgerId == d.ledgerId ==> r.Ok? && r.value.1 == entryId)
            && (ledgerId != d.ledgerId ==> r == Err(LedgerMismatch(ledgerId, d.ledgerId)))
  {
    HeaderRoundTrip(ledgerId, entryId, payload);
  }

  /** Every successfully added buffer is the header of the returned id under
      the descriptor's ledger, followed by the payload. */
  lemma AddedEntryIsHeaderAndPayload(d: Descriptor, st: Store, entry: seq<Byte>)
    requires EntryLogger.Valid(st.log)
    requires AddEntry(d, st, entry).Ok?
    ensures entry == EntryHeader(d.ledgerId, AddEntry(d, st, entry).value.1) + entry[HeaderWidth..]
  {
    HeaderSplit(entry);
  }
}
