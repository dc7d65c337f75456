/** Option, Result and lists of checks, shared by every module of the model. */
module Wrappers {
  datatype Option<+T> = None | Some(value: T)

  datatype Result<+T, +E> = Ok(value: T) | Err(error: E)

  /** Conditions in the order they are checked, each with the error of its failure. */
  type Checks<E> = seq<(bool, E)>

  /** The error of the first check that fails. */
  ghost predicate FirstFailing<E>(checks: Checks<E>, refusal: Option<E>) {
    match refusal
    case None => forall i :: 0 <= i < |checks| ==> checks[i].0
    case Some(e) =>
      exists i :: 0 <= i < |checks| && !checks[i].0 && checks[i].1 == e && forall j :: 0 <= j < i ==> checks[j].0
  }

  lemma FirstFailingThen<E>(a: Checks<E>, b: Checks<E>, first: Option<E>, second: Option<E>)
    requires FirstFailing(a, first) && (first.None? ==> FirstFailing(b, second))
    ensures FirstFailing(a + b, if first.Some? then first else second)
  {
    if first.None? && second.Some? {
      var i :| 0 <= i < |b| && !b[i].0 && b[i].1 == second.value && forall j :: 0 <= j < i ==> b[j].0;
      assert !(a + b)[|a| + i].0;
    } else if first.Some? {
      var i :| 0 <= i < |a| && !a[i].0 && a[i].1 == first.value && forall j :: 0 <= j < i ==> a[j].0;
      assert !(a + b)[i].0;
    }
  }
}
