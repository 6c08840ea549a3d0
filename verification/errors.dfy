/** The failures a ledger descriptor reports, and the result wrappers that
    carry them in place of Java exceptions. */
module BookieErrors {
  import opened MachineInts

  datatype Error =
    /** `BookieException.Code.UnauthorizedAccessException`: wrong master key. */
    | UnauthorizedAccess
    /** The `IOException` raised when an entry names another ledger. */
    | LedgerMismatch(entryLedger: Int64, descriptorLedger: Int64)
    /** `Bookie.NoEntryException`: the ledger cache holds no offset. */
    | NoEntry(ledgerId: Int64, entryId: Int64)
    /** `BufferUnderflowException` from `ByteBuffer.getLong` on a short entry. */
    | BufferUnderflow
    /** An `IOException` from the entry logger. */
    | IoError

  /** A value, or the error the source would have thrown. */
  datatype Result<+T> = Ok(value: T) | Err(error: Error)

  /** The outcome of a check that returns nothing but may throw. */
  datatype Outcome = Pass | Fail(error: Error)
}
