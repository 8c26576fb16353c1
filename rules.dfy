/** Ordered validation: a handler runs its checks one after another and the
    first check that fails decides the rejection reason. */
module Rules {

  /** What a handler reports: the write went ahead, or the reason it did not. */
  datatype Outcome<E> = Accepted | Rejected(reason: E)

  /** One guard of a handler: whether it passes, and the reason reported if not. */
  datatype Check<E> = Check(passes: bool, reason: E)

  /** The outcome of running `checks` in order with early return. */
  function FirstFailure<E>(checks: seq<Check<E>>): (r: Outcome<E>)
    ensures r.Accepted? <==> forall i :: 0 <= i < |checks| ==> checks[i].passes
    ensures r.Rejected? ==>
      exists k :: 0 <= k < |checks| && !checks[k].passes && checks[k].reason == r.reason &&
        forall j :: 0 <= j < k ==> checks[j].passes
  {
    if checks == [] then Accepted
    else if !checks[0].passes then Rejected(checks[0].reason)
    else
      var r := FirstFailure(checks[1..]);
      assert forall i :: 1 <= i < |checks| ==> checks[i] == checks[1..][i - 1];
      r
  }

  /** The reason of a failing check is reported when every earlier check passes,
      whatever the later checks say. */
  lemma FirstFailureAt<E>(checks: seq<Check<E>>, k: nat)
    requires k < |checks| && !checks[k].passes
    requires forall j :: 0 <= j < k ==> checks[j].passes
    ensures FirstFailure(checks) == Rejected(checks[k].reason)
  {
  }
}
