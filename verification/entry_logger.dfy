/** The entry logger as the descriptor sees it: an append-only store that
    hands out a nonzero position for every entry it appends and reads back,
    at that position, exactly the bytes it was given. Files, framing and
    rolling are not part of this model. */
module EntryLogger {
  import opened Bytes
  import opened MachineInts
  import opened BookieErrors

  /** Width of the length field that precedes each stored entry. */
  const LengthFieldWidth: nat := 4

  datatype Log = Log(entries: map<int, seq<Byte>>, next: int)

  /** Positions are positive and every stored position lies before `next`, so
      the position handed out next is fresh and never the "no entry" offset 0. */
  predicate Valid(log: Log)
  {
    && log.next > 0
    && forall p :: p in log.entries ==> 0 < p < log.next
  }

  function Empty(): (log: Log)
    ensures Valid(log)
    ensures log.entries == map[]
  {
    Log(map[], 1)
  }

  /** `EntryLogger.addEntry(ledgerId, entry)`: appends and returns the position. */
  function AddEntry(log: Log, ledgerId: Int64, entry: seq<Byte>): (r: (Log, int))
    requires Valid(log)
    ensures Valid(r.0)
    ensures r.1 != 0 && r.1 !in log.entries
    ensures r.0.entries == log.entries[r.1 := entry]
  {
    (Log(log.entries[log.next := entry], log.next + LengthFieldWidth + |entry|), log.next)
  }

  /** `EntryLogger.readEntry(ledgerId, entryId, offset)`. */
  function ReadEntry(log: Log, ledgerId: Int64, entryId: Int64, offset: int): (r: Result<seq<Byte>>)
    ensures r.Ok? <==> offset in log.entries
    ensures r.Ok? ==> r.value == log.entries[offset]
    ensures r.Err? ==> r.error == IoError
  {
    if offset in log.entries then Ok(log.entries[offset]) else Err(IoError)
  }

  /** What was appended is what is read back at the returned position. */
  lemma ReadAfterAdd(log: Log, ledgerId: Int64, entryId: Int64, entry: seq<Byte>)
    requires Valid(log)
    ensures ReadEntry(AddEntry(log, ledgerId, entry).0, ledgerId, entryId, AddEntry(log, ledgerId, entry).1) == Ok(entry)
  {
  }

  /** Appending never changes what an existing position reads back. */
  lemma AddKeepsStored(log: Log, ledgerId: Int64, entry: seq<Byte>, l: Int64, e: Int64, offset: int)
    requires Valid(log)
    requires offset in log.entries
    ensures ReadEntry(AddEntry(log, ledgerId, entry).0, l, e, offset) == ReadEntry(log, l, e, offset)
  {
  }
}
