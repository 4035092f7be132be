/** Result and error types shared by the model's modules. */
module Common {

  datatype Option<+T> = None | Some(value: T)

  /** The error kinds the modelled functions distinguish; messages are dropped. */
  datatype Error =
    | InvalidInput
    | Corrupt
    | Unsupported
    | NeedsRecovery
    | Exhausted
    | InvalidFormat
    | InvalidToken
    | CursorReleased
    | HistoryUnavailable
    | SnapshotRevoked
    | BatchTooSmall(required: nat)
    | OperationalLimit(required: nat)

  datatype Result<+T> = Ok(value: T) | Err(error: Error) {
    predicate IsFailure() {
      Err?
    }

    function PropagateFailure<U>(): Result<U>
      requires Err?
    {
      Err(error)
    }

    function Extract(): T
      requires Ok?
    {
      value
    }
  }

  lemma Reassociate<T>(a: seq<T>, b: seq<T>, c: seq<T>)
    ensures a + b + c == a + (b + c)
  {
  }

  lemma Split<T>(s: seq<T>, i: nat, j: nat, k: nat)
    requires i <= j <= k <= |s|
    ensures s[i..k] == s[i..j] + s[j..k]
  {
  }
}
