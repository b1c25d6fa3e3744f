/** Option and Result values, and the Python exceptions the modelled code
    raises, as plain data. */
module Wrappers {

  datatype Option<+T> = None | Some(value: T)

  datatype Result<+R> = Success(value: R) | Failure(error: Error) {
    predicate IsFailure() { Failure? }

    function PropagateFailure<U>(): Result<U>
      requires Failure?
    {
      Failure(error)
    }

    function Extract(): R
      requires Success?
    {
      value
    }
  }

  /** The exceptions that the modelled Python code can raise. */
  datatype Error =
    | KeyError           // a dictionary, attribute or vocabulary lookup failed
    | ZeroDivisionError  // a division by the length of an empty null sample
    | IndexError         // `split(':')[1]` on a line without a ':'
    | UnboundLocalError  // a local variable read before any assignment to it

  /** The values of the first k results in order, or the first failure
      among them: a loop that stops at the first exception. */
  function CollectUpTo<T>(rs: seq<Result<T>>, k: nat): Result<seq<T>>
    requires k <= |rs|
  {
    if k == 0 then Success([])
    else
      var prev :- CollectUpTo(rs, k - 1);
      var t :- rs[k - 1];
      Success(prev + [t])
  }

  /** The collection succeeds exactly when each of the k results does, and
      then its i-th value is the i-th result's. */
  lemma {:induction false} CollectSpec<T>(rs: seq<Result<T>>, k: nat)
    requires k <= |rs|
    ensures CollectUpTo(rs, k).Success? <==> forall r :: 0 <= r < k ==> rs[r].Success?
    ensures CollectUpTo(rs, k).Success? ==>
      && |CollectUpTo(rs, k).value| == k
      && forall r :: 0 <= r < k ==> CollectUpTo(rs, k).value[r] == rs[r].value
  {
    if k > 0 {
      CollectSpec(rs, k - 1);
      var prev := CollectUpTo(rs, k - 1);
      var all := CollectUpTo(rs, k);
      if all.Success? {
        assert all.value == prev.value + [rs[k - 1].value];
        forall r | 0 <= r < k
          ensures all.value[r] == rs[r].value
        {
          if r < k - 1 {
            assert all.value[r] == prev.value[r];
          }
        }
      }
    }
  }

  /** Once a result has failed, collecting more keeps that failure. */
  lemma {:induction false} CollectFailure<T>(rs: seq<Result<T>>, k: nat, k': nat)
    requires k <= k' <= |rs|
    requires CollectUpTo(rs, k).Failure?
    ensures CollectUpTo(rs, k') == CollectUpTo(rs, k)
  {
    if k < k' {
      CollectFailure(rs, k, k' - 1);
    }
  }

  /** A failed collection carries the exception of the first result that
      failed; every result before it succeeded. */
  lemma {:induction false} CollectFirstFailure<T>(rs: seq<Result<T>>, k: nat)
    requires k <= |rs| && CollectUpTo(rs, k).Failure?
    ensures exists j :: 0 <= j < k && rs[j] == Failure(CollectUpTo(rs, k).error)
                        && forall i :: 0 <= i < j ==> rs[i].Success?
  {
    if CollectUpTo(rs, k - 1).Failure? {
      CollectFirstFailure(rs, k - 1);
    } else {
      CollectSpec(rs, k - 1);
      assert rs[k - 1] == Failure(CollectUpTo(rs, k).error);
    }
  }

  /** A failure at position j after j successes is the collection's
      failure. */
  lemma CollectFailsAt<T>(rs: seq<Result<T>>, j: nat)
    requires j < |rs| && CollectUpTo(rs, j).Success? && rs[j].Failure?
    ensures CollectUpTo(rs, |rs|) == Failure(rs[j].error)
  {
    CollectFailure(rs, j + 1, |rs|);
  }
}
