/** Failure-compatible wrappers shared by every module of the model.
    - Option<T> stands for a .NET reference that may be null.
    - Result<T> stands for a call that either returns or throws; the error
      carries the exception's message or kind.
    - Single<T> is the outcome of LINQ's SingleOrDefault: no match (the
      default, null), exactly one match, or more than one (which throws). */
module Wrappers {

  datatype Option<+T> = None | Some(value: T) {
    function GetOr(default: T): T {
      match this
      case Some(v) => v
      case None => default
    }
  }

  datatype Result<+T> = Success(value: T) | Failure(error: string) {
    predicate IsFailure() {
      Failure?
    }

    function PropagateFailure<U>(): Result<U>
      requires Failure?
    {
      Failure(error)
    }

    function Extract(): T
      requires Success?
    {
      value
    }
  }

  datatype Single<+T> = NoMatch | One(value: T) | Many

  /** LINQ SingleOrDefault over the elements of `s` that satisfy `p`. */
  function SingleWhere<T>(s: seq<T>, p: T -> bool): (r: Single<T>)
    ensures r.NoMatch? <==> (forall i :: 0 <= i < |s| ==> !p(s[i]))
    ensures r.One? ==> r.value in s && p(r.value)
    ensures r.One? ==> forall i, j :: 0 <= i < |s| && 0 <= j < |s| && p(s[i]) && p(s[j]) ==> i == j
    ensures r.Many? ==> exists i, j :: 0 <= i < j < |s| && p(s[i]) && p(s[j])
  {
    if |s| == 0 then NoMatch
    else
      var rest := SingleWhere(s[1..], p);
      if !p(s[0]) then
        assert forall i :: 1 <= i < |s| ==> s[i] == s[1..][i - 1];
        rest
      else if rest.NoMatch? then
        assert forall i :: 1 <= i < |s| ==> s[i] == s[1..][i - 1];
        One(s[0])
      else
        assert forall i :: 1 <= i < |s| ==> s[i] == s[1..][i - 1];
        assert exists k :: 0 <= k < |s[1..]| && p(s[1..][k]);
        Many
  }

  /** When exactly the element at k satisfies `p`, SingleOrDefault finds it. */
  lemma SingleWhereUnique<T>(s: seq<T>, p: T -> bool, k: nat)
    requires k < |s| && p(s[k])
    requires forall i :: 0 <= i < |s| && p(s[i]) ==> i == k
    ensures SingleWhere(s, p) == One(s[k])
  {
    var r := SingleWhere(s, p);
    if r.One? {
      var i :| 0 <= i < |s| && s[i] == r.value;
    }
  }

  /** Some element satisfies `p`. */
  predicate Matches<T>(s: seq<T>, p: T -> bool) {
    exists i :: 0 <= i < |s| && p(s[i])
  }

  /** Two different positions satisfy `p`. */
  predicate MatchesTwice<T>(s: seq<T>, p: T -> bool) {
    exists i, j :: 0 <= i < j < |s| && p(s[i]) && p(s[j])
  }

  /** SingleOrDefault finds nothing exactly when nothing matches, and throws
      exactly when two positions match. */
  lemma SingleWhereCases<T>(s: seq<T>, p: T -> bool)
    ensures SingleWhere(s, p).NoMatch? <==> !Matches(s, p)
    ensures SingleWhere(s, p).Many? <==> MatchesTwice(s, p)
  {
    var r := SingleWhere(s, p);
    if MatchesTwice(s, p) {
      var i, j :| 0 <= i < j < |s| && p(s[i]) && p(s[j]);
      assert !r.One?;
    }
  }

  /** The error that SingleOrDefault throws when more than one element matches. */
  const SequenceHasMoreThanOneMatch := "InvalidOperationException: Sequence contains more than one matching element"

  /** The error that Dictionary.Add throws for a key it already holds. */
  const DuplicateKey := "ArgumentException: An item with the same key has already been added."

  /** The error that a dictionary lookup throws for a key it does not hold. */
  const KeyNotFound := "KeyNotFoundException: The given key was not present in the dictionary."
}
