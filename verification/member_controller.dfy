/** The REST boundary (controller/MemberController.java): maps what the
    service returns or throws to a status code and a body. */
module MemberController {
  import opened Wrappers
  import opened MemberModel
  import opened Exceptions
  import opened MemberRepository
  import opened MemberService

  datatype Body =
    | MemberBody(member: Member)
    | FieldErrors(errors: map<string, Message>)
    | ErrorBody(fields: map<string, string>)
    | NoBody

  /** A response the handler builds, or an exception that escapes it. */
  datatype Reply = Respond(status: nat, body: Body) | Escapes(exception: Exception)

  const Ok: nat := 200
  const Created: nat := 201
  const BadRequest: nat := 400
  const NotFound: nat := 404
  const Conflict: nat := 409
  const InternalServerError: nat := 500

  const UnexpectedErrorText: string := "An unexpected error occurred during registration."

  /** The `catch` clauses of `createMember`, in source order. */
  const CreateMemberCatches: seq<ExceptionClass> := [ConstraintViolationClass, ValidationClass, AnyException]

  /** The map key of a violation: its property path. */
  function KeyOf(v: Violation): string {
    PropertyPath(v.field)
  }

  /** No two violations report the same property path. */
  predicate DistinctKeys(vs: set<Violation>) {
    forall a, b :: a in vs && b in vs && KeyOf(a) == KeyOf(b) ==> a == b
  }

  /** `buildValidationErrors`: a map from property path to message. With no
      merge function, two violations on the same path make the collector
      throw instead of keeping either message. */
  function BuildValidationErrors(vs: set<Violation>): (r: Result<map<string, Message>, Exception>)
    ensures r.Success? <==> DistinctKeys(vs)
    ensures r.Failure? ==> r.error.IllegalStateException?
    ensures r.Success? ==> r.value.Keys == set v | v in vs :: KeyOf(v)
    ensures r.Success? ==> forall v :: v in vs ==> r.value[KeyOf(v)] == MessageOf(v.constraint)
  {
    if DistinctKeys(vs) then
      Success(map v | v in vs :: KeyOf(v) := MessageOf(v.constraint))
    else
      Failure(IllegalStateException)
  }

  /** `Collectors.toMap` over a stream of violations, consumed left to right.
      The only failure is the duplicate-key `IllegalStateException`; a
      success holds every element's key. */
  function CollectToMap(xs: seq<Violation>): (r: Result<map<string, Message>, Exception>)
    ensures r.Failure? ==> r.error == IllegalStateException
    ensures r.Success? ==> forall i :: 0 <= i < |xs| ==> KeyOf(xs[i]) in r.value
  {
    if |xs| == 0 then Success(map[])
    else
      match CollectToMap(xs[..|xs| - 1])
      case Failure(e) => Failure(e)
      case Success(acc) =>
        var v := xs[|xs| - 1];
        if KeyOf(v) in acc then Failure(IllegalStateException)
        else Success(acc[KeyOf(v) := MessageOf(v.constraint)])
  }

  predicate NoRepeats(xs: seq<Violation>) {
    forall i, j :: 0 <= i < j < |xs| ==> xs[i] != xs[j]
  }

  predicate KeysDistinct(xs: seq<Violation>) {
    forall i, j :: 0 <= i < j < |xs| ==> KeyOf(xs[i]) != KeyOf(xs[j])
  }

  /** What a successful collection holds: each violation's key, mapped to
      its message. */
  lemma {:induction false} CollectToMapContents(xs: seq<Violation>)
    requires CollectToMap(xs).Success?
    ensures CollectToMap(xs).value.Keys == (set v | v in xs :: KeyOf(v))
    ensures forall v :: v in xs ==> CollectToMap(xs).value[KeyOf(v)] == MessageOf(v.constraint)
    decreases |xs|
  {
    if |xs| > 0 {
      var init := xs[..|xs| - 1];
      var v := xs[|xs| - 1];
      assert xs == init + [v];
      CollectToMapContents(init);
      assert forall u :: u in xs <==> u in init || u == v;
    }
  }

  /** A successful collection has exactly one entry per element. */
  lemma {:induction false} CollectToMapSize(xs: seq<Violation>)
    requires CollectToMap(xs).Success?
    ensures |CollectToMap(xs).value| == |xs|
    decreases |xs|
  {
    if |xs| > 0 {
      CollectToMapSize(xs[..|xs| - 1]);
    }
  }

  /** Distinct keys in a non-empty sequence: distinct keys in all but the
      last element, and the last element's key differs from every other. */
  lemma KeysDistinctSnoc(xs: seq<Violation>)
    requires |xs| > 0
    ensures KeysDistinct(xs) <==>
              KeysDistinct(xs[..|xs| - 1]) && forall i :: 0 <= i < |xs| - 1 ==> KeyOf(xs[i]) != KeyOf(xs[|xs| - 1])
  {
  }

  /** The collector succeeds exactly when no key repeats. */
  lemma {:induction false} CollectToMapSucceeds(xs: seq<Violation>)
    ensures CollectToMap(xs).Success? <==> KeysDistinct(xs)
    decreases |xs|
  {
    if |xs| > 0 {
      var init := xs[..|xs| - 1];
      var v := xs[|xs| - 1];
      CollectToMapSucceeds(init);
      KeysDistinctSnoc(xs);
      if CollectToMap(init).Success? {
        CollectToMapContents(init);
        var acc := CollectToMap(init).value;
        if KeyOf(v) in acc {
          var u :| u in init && KeyOf(u) == KeyOf(v);
          var i :| 0 <= i < |init| && init[i] == u;
          assert KeyOf(xs[i]) == KeyOf(xs[|xs| - 1]);
        } else {
          forall i | 0 <= i < |xs| - 1
            ensures KeyOf(xs[i]) != KeyOf(v)
          {
            assert xs[i] == init[i];
            assert xs[i] in init;
          }
        }
      }
    }
  }

  /** Whatever order the violation set is streamed in, the collector agrees
      with `BuildValidationErrors`: it fails exactly when two violations share
      a key, and otherwise builds the same map. */
  lemma {:induction false} CollectOrderIrrelevant(xs: seq<Violation>, vs: set<Violation>)
    requires NoRepeats(xs)
    requires forall v :: v in xs <==> v in vs
    ensures CollectToMap(xs).Success? <==> BuildValidationErrors(vs).Success?
    ensures CollectToMap(xs).Success? ==> CollectToMap(xs).value == BuildValidationErrors(vs).value
  {
    CollectToMapSucceeds(xs);
    if KeysDistinct(xs) {
      CollectToMapContents(xs);
      forall a, b | a in vs && b in vs && KeyOf(a) == KeyOf(b)
        ensures a == b
      {
        var i :| 0 <= i < |xs| && xs[i] == a;
        var j :| 0 <= j < |xs| && xs[j] == b;
        assert !(i < j) && !(j < i);
      }
      var m1 := CollectToMap(xs).value;
      var m2 := BuildValidationErrors(vs).value;
      assert m1.Keys == m2.Keys;
      forall k | k in m1.Keys
        ensures m1[k] == m2[k]
      {
        var v :| v in xs && KeyOf(v) == k;
      }
    } else {
      var i, j :| 0 <= i < j < |xs| && KeyOf(xs[i]) == KeyOf(xs[j]);
      assert xs[i] in vs && xs[j] in vs && xs[i] != xs[j];
    }
  }

  /** The `try`/`catch` of `createMember` applied to what `register` did. */
  function HandleRegistration(outcome: Outcome): (r: Reply)
    ensures outcome.Returned? ==> r == Respond(Created, MemberBody(outcome.member))
    ensures outcome.Threw? && outcome.exception.ConstraintViolationException? ==>
              var vs := outcome.exception.violations;
              && (DistinctKeys(vs) ==> r.Respond? && r.status == BadRequest && r.body.FieldErrors?
                                       && r.body.errors.Keys == (set v | v in vs :: KeyOf(v))
                                       && forall v :: v in vs ==> r.body.errors[KeyOf(v)] == MessageOf(v.constraint))
              && (!DistinctKeys(vs) ==> r.Escapes? && r.exception.IllegalStateException?)
    ensures outcome.Threw? && outcome.exception.ValidationException? ==>
              r == Respond(Conflict, ErrorBody(map["error" := outcome.exception.message]))
    ensures outcome.Threw? && !InstanceOf(outcome.exception, ValidationClass) ==>
              r == Respond(InternalServerError, ErrorBody(map["error" := UnexpectedErrorText]))
  {
    match outcome
    case Returned(m) => Respond(Created, MemberBody(m))
    case Threw(e) =>
      CreateMemberCatchClause(e);
      match FirstCatch(CreateMemberCatches, e)
      case Some(0) =>
        (match BuildValidationErrors(e.violations)
         case Success(errors) => Respond(BadRequest, FieldErrors(errors))
         case Failure(escaping) => Escapes(escaping))
      case Some(1) => Respond(Conflict, ErrorBody(map["error" := e.message]))
      case _ => Respond(InternalServerError, ErrorBody(map["error" := UnexpectedErrorText]))
  }

  /** Which `catch` clause of `createMember` handles each exception. */
  lemma CreateMemberCatchClause(e: Exception)
    ensures FirstCatch(CreateMemberCatches, e)
            == if e.ConstraintViolationException? then Some(0) else if e.ValidationException? then Some(1) else Some(2)
  {
    assert InstanceOf(e, CreateMemberCatches[2]);
    if e.ConstraintViolationException? {
      assert InstanceOf(e, CreateMemberCatches[0]);
    } else if e.ValidationException? {
      assert !InstanceOf(e, CreateMemberCatches[0]) && InstanceOf(e, CreateMemberCatches[1]);
    } else {
      assert !InstanceOf(e, CreateMemberCatches[0]) && !InstanceOf(e, CreateMemberCatches[1]);
    }
  }

  /** The specific clause must come first: a `ValidationException` clause
      also catches every constraint-violation exception, so without the
      specific clause ahead of it the general one would handle them. (Java
      rejects the reverse order at compile time, as the specific clause
      would be unreachable.) */
  lemma CatchOrderMatters(vs: set<Violation>)
    ensures FirstCatch(CreateMemberCatches, ConstraintViolationException(vs)) == Some(0)
    ensures FirstCatch([ValidationClass, ConstraintViolationClass, AnyException], ConstraintViolationException(vs)) == Some(0)
    ensures CreateMemberCatches[0] != ValidationClass
  {
  }

  /** An unexpected failure never leaks its detail: every such exception
      gets the same response. */
  lemma UnexpectedFailureHidesDetail(e1: Exception, e2: Exception)
    requires !InstanceOf(e1, ValidationClass) && !InstanceOf(e2, ValidationClass)
    ensures HandleRegistration(Threw(e1)) == HandleRegistration(Threw(e2))
    ensures HandleRegistration(Threw(e1)) == Respond(InternalServerError, ErrorBody(map["error" := UnexpectedErrorText]))
  {
  }

  /** `createMember`: clears the incoming id, registers, and answers. */
  function CreateMember(store: Store, body: Member, emailSyntax: string -> bool): (r: (Reply, Store))
    ensures r.1 == Register(store, body.(id := None), emailSyntax).1
    ensures r.0.Respond? && r.0.status == Created ==>
              r.0.body.MemberBody? && r.1 == store + [r.0.body.member] && SameFields(r.0.body.member, body)
    ensures r.0.Respond? && r.0.status != Created ==> r.1 == store
    ensures r.0.Escapes? ==> r.1 == store
  {
    var (outcome, store') := Register(store, body.(id := None), emailSyntax);
    (HandleRegistration(outcome), store')
  }

  /** Whatever id the client sends is ignored. */
  lemma CreateMemberIgnoresClientId(store: Store, a: Member, b: Member, emailSyntax: string -> bool)
    requires SameFields(a, b)
    ensures CreateMember(store, a, emailSyntax) == CreateMember(store, b, emailSyntax)
  {
  }

  /** A field-valid member with an unregistered email is created: 201, the
      member appended under a fresh id. */
  lemma CreateMemberSucceeds(store: Store, body: Member, emailSyntax: string -> bool)
    requires FieldValid(body, emailSyntax) && !EmailRegistered(store, body.email)
    ensures var (reply, store') := CreateMember(store, body, emailSyntax);
            && reply.Respond? && reply.status == Created && reply.body.MemberBody?
            && store' == store + [reply.body.member]
            && SameFields(reply.body.member, body) && reply.body.member.id.Some?
  {
  }

  /** A field-valid member whose email is registered: 409 with the
      service's message, word for word. */
  lemma CreateMemberConflict(store: Store, body: Member, emailSyntax: string -> bool)
    requires FieldValid(body, emailSyntax) && EmailRegistered(store, body.email)
    ensures CreateMember(store, body, emailSyntax)
            == (Respond(Conflict, ErrorBody(map["error" := "Email address " + body.email.value + " is already registered."])), store)
  {
  }

  /** An invalid member with at most one violation per field: 400 with a map
      whose keys are exactly the violated fields. */
  lemma CreateMemberBadRequest(store: Store, body: Member, emailSyntax: string -> bool)
    requires !FieldValid(body, emailSyntax)
    requires DistinctKeys(Validate(body, emailSyntax))
    ensures var reply := CreateMember(store, body, emailSyntax).0;
            && reply.Respond? && reply.status == BadRequest && reply.body.FieldErrors?
            && (forall f :: PropertyPath(f) in reply.body.errors <==> FieldViolations(Validate(body, emailSyntax), f) != {})
  {
    var vs := Validate(body, emailSyntax);
    ValidateIgnoresId(body, None, emailSyntax);
    var errors := BuildValidationErrors(vs).value;
    forall f
      ensures PropertyPath(f) in errors <==> FieldViolations(vs, f) != {}
    {
      if PropertyPath(f) in errors {
        var v :| v in vs && KeyOf(v) == PropertyPath(f);
        PropertyPathInjective(v.field, f);
        assert v in FieldViolations(vs, f);
      } else {
        forall v | v in vs
          ensures v.field != f
        {
          assert KeyOf(v) in errors;
        }
        assert FieldViolations(vs, f) == {};
      }
    }
  }

  /** An invalid member with exactly one violation: 400 whose map has that
      one entry, and the store is untouched. */
  lemma CreateMemberSingleViolation(store: Store, body: Member, emailSyntax: string -> bool, v: Violation)
    requires Validate(body, emailSyntax) == {v}
    ensures CreateMember(store, body, emailSyntax)
            == (Respond(BadRequest, FieldErrors(map[KeyOf(v) := MessageOf(v.constraint)])), store)
  {
    ValidateIgnoresId(body, None, emailSyntax);
    assert BuildValidationErrors({v}).value == map[KeyOf(v) := MessageOf(v.constraint)];
  }

  /** Two violations on one field share a key. */
  lemma SharedFieldBreaksKeys(vs: set<Violation>, f: Field)
    requires |FieldViolations(vs, f)| >= 2
    ensures !DistinctKeys(vs)
  {
    var a :| a in FieldViolations(vs, f);
    assert |FieldViolations(vs, f) - {a}| >= 1;
    var b :| b in FieldViolations(vs, f) - {a};
    assert a in vs && b in vs && KeyOf(a) == KeyOf(b) && a != b;
  }

  /** Two violations on one field do not become a 400 with either message:
      building the error map throws, and the exception escapes the handler. */
  lemma CreateMemberSharedFieldEscapes(store: Store, body: Member, emailSyntax: string -> bool, f: Field)
    requires |FieldViolations(Validate(body, emailSyntax), f)| >= 2
    ensures CreateMember(store, body, emailSyntax) == (Escapes(IllegalStateException), store)
  {
    var vs := Validate(body, emailSyntax);
    ValidateIgnoresId(body, None, emailSyntax);
    SharedFieldBreaksKeys(vs, f);
  }

  /** `getMemberById`: 200 with the member when there is one, 404 otherwise. */
  function GetMemberById(store: Store, id: string): (r: Reply)
    ensures r.Respond?
    ensures r.status == Ok <==> exists j :: 0 <= j < |store| && store[j].id == Some(id)
    ensures r.status == Ok ==> r.body.MemberBody? && r.body.member in store && r.body.member.id == Some(id)
    ensures r.status != Ok ==> r == Respond(NotFound, NoBody)
  {
    match FindMemberById(store, id)
    case Some(m) => Respond(Ok, MemberBody(m))
    case None => Respond(NotFound, NoBody)
  }

  /** `listAllMembers`: every stored member, sorted by name. */
  function ListAllMembers(store: Store): (r: seq<Member>)
    ensures multiset(r) == multiset(store)
    ensures SortedByName(r)
  {
    FindAll(store)
  }
}
