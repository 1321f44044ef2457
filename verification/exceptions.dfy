/** The exceptions the registration path can raise, and the subclass
    relation that decides which `catch` clause handles each of them. */
module Exceptions {
  import opened Wrappers
  import opened MemberModel

  datatype Exception =
    /** Bean Validation found violations; carries all of them. */
    | ConstraintViolationException(violations: set<Violation>)
    /** A business-rule failure, with its message. */
    | ValidationException(message: string)
    /** The store's unique index rejected a write. */
    | DuplicateKeyException(index: string)
    /** Any other store failure (connection lost, timeout, ...). */
    | DataAccessException(detail: string)
    /** `Collectors.toMap` met the same key twice. */
    | IllegalStateException

  /** The exception types named by `catch` clauses. */
  datatype ExceptionClass = ConstraintViolationClass | ValidationClass | AnyException

  /** `e instanceof k`. A constraint-violation exception is also a validation
      exception, and every exception is an `Exception`. */
  function InstanceOf(e: Exception, k: ExceptionClass): (ok: bool)
    ensures k == AnyException ==> ok
    ensures e.ConstraintViolationException? ==> ok
    ensures e.ValidationException? ==> (ok <==> k != ConstraintViolationClass)
    ensures !e.ConstraintViolationException? && !e.ValidationException? ==> (ok <==> k == AnyException)
  {
    match k
    case ConstraintViolationClass => e.ConstraintViolationException?
    case ValidationClass => e.ConstraintViolationException? || e.ValidationException?
    case AnyException => true
  }

  /** The index of the `catch` clause that handles `e`: the first clause, in
      source order, whose type `e` is an instance of. */
  function FirstCatch(clauses: seq<ExceptionClass>, e: Exception): (r: Option<nat>)
    ensures r.Some? ==> r.value < |clauses| && InstanceOf(e, clauses[r.value])
    ensures r.Some? ==> forall j :: 0 <= j < r.value ==> !InstanceOf(e, clauses[j])
    ensures r.None? <==> forall j :: 0 <= j < |clauses| ==> !InstanceOf(e, clauses[j])
  {
    if |clauses| == 0 then None
    else if InstanceOf(e, clauses[0]) then Some(0)
    else match FirstCatch(clauses[1..], e)
      case None => None
      case Some(k) => Some(k + 1)
  }
}
