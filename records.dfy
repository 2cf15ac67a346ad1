/**
 * The small record types shared by the lock manager and the coordinator:
 * buffered operations, operation responses, transaction metadata, the
 * decoded input commands and the abstract output records.
 */
module Records {

  /** Kind of a buffered operation (Operation.OperationType). */
  datatype OpKind = ReadOp | WriteOp | ReadOnlyOp

  /**
   * One buffered read or write. `value` is only meaningful for writes (reads
   * carry -1); `timestamp` is the start time of the issuing transaction and is
   * what a multiversion read compares commit times against.
   */
  datatype Operation = Operation(txn: int, variable: int, kind: OpKind, value: int, timestamp: int)

  /**
   * Result of a site-level read or write. A failed response, and a successful
   * write, carry the default read result 0.
   */
  datatype Response = Response(success: bool, readResult: int)

  const Failed := Response(false, 0)

  /**
   * Registry entry of a transaction: `startTime` and `isReadOnly` are fixed at
   * `begin`; `willAbort` only ever goes from false to true; `visitedSites`
   * collects the sites where a read or write of the transaction succeeded.
   */
  datatype Transaction = Transaction(startTime: int, isReadOnly: bool, willAbort: bool, visitedSites: set<int>)

  /** An already-decoded input line. */
  datatype Command =
    | Begin(txn: int)
    | BeginRO(txn: int)
    | End(txn: int)
    | Fail(site: int)
    | Recover(site: int)
    | Dump
    | R(txn: int, variable: int)
    | W(txn: int, variable: int, value: int)
    | Blank   // an empty, comment-only or unrecognised line

  /** What the simulator reports: a successful read, or the outcome of `end`. */
  datatype Output =
    | ReadResult(variable: int, value: int)
    | Commits(txn: int)
    | Aborts(txn: int)
}
