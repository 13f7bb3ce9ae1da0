/** Small shared vocabulary: an optional value and a value-or-error result,
    both usable with Dafny's `:-` operator. */
module Common {

  datatype Option<+T> = None | Some(value: T) {
    predicate IsFailure() { None? }
    function PropagateFailure<U>(): Option<U>
      requires None?
    {
      None
    }
    function Extract(): T
      requires Some?
    {
      value
    }
  }

  datatype Result<+T, +E> = Ok(value: T) | Err(error: E) {
    predicate IsFailure() { Err? }
    function PropagateFailure<U>(): Result<U, E>
      requires Err?
    {
      Err(error)
    }
    function Extract(): T
      requires Ok?
    {
      value
    }
  }

  /** Success or a failure value, for operations that return nothing. */
  datatype Outcome<+E> = Pass | Fail(error: E)

  /** Concatenation of sequences is associative. */
  lemma ConcatAssoc<T>(a: seq<T>, b: seq<T>, c: seq<T>)
    ensures a + b + c == a + (b + c)
  {
  }

  /** A non-empty set has an element to pick. */
  lemma PickElement<T>(s: set<T>) returns (x: T)
    requires s != {}
    ensures x in s
  {
    if forall y :: y !in s {
      assert false;
    }
    x :| x in s;
  }
}
