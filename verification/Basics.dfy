/** Types that every part of the model shares. */
module Basics {

  datatype Option<+T> = None | Some(value: T)

  type Byte = b: int | 0 <= b < 256

  type Bytes = seq<Byte>

  /** The errors of a component deployment. */
  datatype DeployError =
    | InvalidArguments
    | CapacityExhausted
    | Timeout
    | Unavailable
    | UnsafeState
    | VerificationFailed
    | RollbackFailed
    | CleanupIncomplete

  /** The errors of single requests and checks; the two others say something about
      what a deployment left. */
  predicate Ordinary(error: DeployError) {
    !error.RollbackFailed? && !error.CleanupIncomplete?
  }

  /** A value or a deployment error; usable with `:-`. */
  datatype Result<+T> = Ok(value: T) | Err(error: DeployError) {

    predicate IsFailure() {
      Err?
    }

    function PropagateFailure<U>(): Result<U>
      requires Err?
    {
      Err(error)
    }

    function Extract(): T
      requires Ok?
    {
      value
    }
  }

  /** Shared by every caller that turns an unordered collection into a list. */
  method Enumerate<T>(s: set<T>) returns (q: seq<T>)
    ensures forall x :: x in q <==> x in s
    ensures |q| == |s|
    ensures forall i, j :: 0 <= i < j < |q| ==> q[i] != q[j]
  {
    q := [];
    var rest := s;
    while rest != {}
      invariant rest <= s
      invariant forall x :: x in q <==> x in s && x !in rest
      invariant |q| + |rest| == |s|
      invariant forall i, j :: 0 <= i < j < |q| ==> q[i] != q[j]
      decreases rest
    {
      var x :| x in rest;
      rest := rest - {x};
      q := q + [x];
    }
  }

  lemma SubsetCardinality<T>(a: set<T>, b: set<T>)
    requires a <= b
    ensures |a| <= |b|
  {
    assert b == a + (b - a);
  }

  lemma FullSubset<T>(a: set<T>, b: set<T>)
    requires a <= b && |a| == |b|
    ensures a == b
  {
    assert b == a + (b - a);
  }
}
