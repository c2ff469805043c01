/**
 The bounded retry of a transaction callback: which errors it retries, as the classes of the
 exceptions and the order of the catch clauses decide, and how often the callback can run.
 */
module Transactor {
  import opened Wrappers

  /** The exception classes that the retry loop can tell apart, and some that it cannot. */
  datatype ErrorClass =
    | LibraryFailure | BrokenConnection | ProtocolViolation | TooManyConnections | InDoubtError
    | SqlError | TransactionRollback | SerializationFailure | StatementCompletionUnknown | DeadlockDetected
    | OtherError

  function Parent(e: ErrorClass): Option<ErrorClass> {
    match e
    case LibraryFailure => None
    case OtherError => None
    case BrokenConnection => Some(LibraryFailure)
    case InDoubtError => Some(LibraryFailure)
    case SqlError => Some(LibraryFailure)
    case ProtocolViolation => Some(BrokenConnection)
    case TooManyConnections => Some(BrokenConnection)
    case TransactionRollback => Some(SqlError)
    case SerializationFailure => Some(TransactionRollback)
    case StatementCompletionUnknown => Some(TransactionRollback)
    case DeadlockDetected => Some(TransactionRollback)
  }

  function Depth(e: ErrorClass): nat {
    match e
    case LibraryFailure => 0
    case OtherError => 0
    case BrokenConnection => 1
    case InDoubtError => 1
    case SqlError => 1
    case ProtocolViolation => 2
    case TooManyConnections => 2
    case TransactionRollback => 2
    case _ => 3
  }

  /** A `catch` clause for `base` takes an exception of class `e`. */
  predicate Catches(base: ErrorClass, e: ErrorClass)
    decreases Depth(e)
  {
    e == base || (Parent(e).Some? && Catches(base, Parent(e).value))
  }

  /** The errors after which running the callback again is safe and may help. */
  predicate Retryable(e: ErrorClass) {
    e in {BrokenConnection, TooManyConnections, TransactionRollback, SerializationFailure, DeadlockDetected}
  }

  /** What each of the loop's catch clauses takes. */
  lemma {:induction false} CaughtBy(e: ErrorClass)
    ensures Catches(BrokenConnection, e) <==> e in {BrokenConnection, ProtocolViolation, TooManyConnections}
    ensures Catches(TransactionRollback, e) <==>
            e in {TransactionRollback, SerializationFailure, StatementCompletionUnknown, DeadlockDetected}
    ensures Catches(InDoubtError, e) <==> e == InDoubtError
    ensures Catches(StatementCompletionUnknown, e) <==> e == StatementCompletionUnknown
    ensures Catches(ProtocolViolation, e) <==> e == ProtocolViolation
    decreases Depth(e)
  {
    if e == LibraryFailure || e == OtherError {
    } else {
      CaughtBy(Parent(e).value);
    }
  }

  /** The same from the classes: a lost connection, but not one lost to a broken protocol, or a
      rollback, but not one that leaves unknown what the statement did. */
  lemma RetryableByClass(e: ErrorClass)
    ensures Retryable(e) <==>
            || (Catches(BrokenConnection, e) && !Catches(ProtocolViolation, e))
            || (Catches(TransactionRollback, e) && !Catches(StatementCompletionUnknown, e))
  {
    hide Catches;
    CaughtBy(e);
  }

  /** An error after which the transaction may have gone through, or that retrying does not help. */
  predicate Final(e: ErrorClass) {
    || Catches(InDoubtError, e) || Catches(StatementCompletionUnknown, e) || Catches(ProtocolViolation, e)
    || (!Catches(BrokenConnection, e) && !Catches(TransactionRollback, e))
  }

  /** What one run of the callback does. */
  datatype Outcome<+R> = Returned(value: R) | Threw(error: ErrorClass)

  /** How `perform` ends. */
  datatype Ending<+R> = Result(value: R) | Rethrown(error: ErrorClass) | InvalidArgument | NoOutcome

  /**
   The retry discipline: all runs but the last failed retryably; the last one succeeded, or
   failed for good, or was the last one allowed; and its outcome is the ending.
   */
  ghost predicate Disciplined<R>(runs: nat -> Outcome<R>, attempts: int, calls: nat, ending: Ending<R>) {
    && 1 <= calls <= attempts
    && (forall i | 0 <= i < calls - 1 :: runs(i).Threw? && Retryable(runs(i).error))
    && (match runs(calls - 1)
        case Returned(value) => ending == Result(value)
        case Threw(error) => ending == Rethrown(error) && (calls == attempts || !Retryable(error)))
  }

  /** `runs` scripts what the callback does on its first run, its second, and so on. */
  method Perform<R>(runs: nat -> Outcome<R>, attempts: int) returns (ending: Ending<R>, calls: nat)
    ensures attempts <= 0 ==> ending == InvalidArgument && calls == 0
    ensures attempts > 0 ==> Disciplined(runs, attempts, calls, ending)
    ensures forall i | 0 <= i < calls - 1 :: runs(i).Threw? && !Final(runs(i).error)
    ensures 0 < calls < attempts && runs(calls - 1).Threw? ==> Final(runs(calls - 1).error)
  {
    hide Catches;
    forall e {
      CaughtBy(e);
    }
    calls := 0;
    if attempts <= 0 {
      return InvalidArgument, 0;
    }
    var left := attempts;
    while left > 0
      invariant 0 <= left <= attempts && calls == attempts - left
      invariant forall i | 0 <= i < calls :: runs(i).Threw? && Retryable(runs(i).error)
      invariant left > 0
      decreases left
    {
      var outcome := runs(calls);
      calls := calls + 1;
      if outcome.Returned? {
        return Result(outcome.value), calls;
      }
      var e := outcome.error;
      if Catches(InDoubtError, e) {
        return Rethrown(e), calls;
      } else if Catches(StatementCompletionUnknown, e) {
        return Rethrown(e), calls;
      } else if Catches(ProtocolViolation, e) {
        return Rethrown(e), calls;
      } else if Catches(BrokenConnection, e) {
        if left <= 1 {
          return Rethrown(e), calls;
        }
      } else if Catches(TransactionRollback, e) {
        if left <= 1 {
          return Rethrown(e), calls;
        }
      } else {
        return Rethrown(e), calls;
      }
      left := left - 1;
    }
    return NoOutcome, calls;
  }

  /** Only one way of running and one ending fit the discipline. */
  lemma EndingIsDetermined<R>(runs: nat -> Outcome<R>, attempts: int, c: nat, e: Ending<R>, c': nat, e': Ending<R>)
    requires Disciplined(runs, attempts, c, e) && Disciplined(runs, attempts, c', e')
    ensures c == c' && e == e'
  {
  }

  /**
   If a run that failed retryably did not commit, the callback's effect is committed at most
   once, by the last run; and then `perform` did not end in a retryable error.
   */
  lemma CommitsAtMostOnce<R>(runs: nat -> Outcome<R>, committed: nat -> bool, attempts: int, calls: nat,
                             ending: Ending<R>)
    requires Disciplined(runs, attempts, calls, ending)
    requires forall i :: runs(i).Threw? && Retryable(runs(i).error) ==> !committed(i)
    ensures forall i | 0 <= i < calls :: committed(i) ==> i == calls - 1
    ensures ending.Rethrown? && Retryable(ending.error) ==> forall i | 0 <= i < calls :: !committed(i)
  {
  }
}
