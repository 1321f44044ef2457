/** The registration workflow and read paths (service/MemberService.java).
    `register` validates, then checks the email against the store, then
    saves; each step fails in its own way. The store is passed in and the
    possibly updated store is returned: each call is one atomic step. */
module MemberService {
  import opened Wrappers
  import opened MemberModel
  import opened Exceptions
  import opened MemberRepository

  /** How a call to `register` ends: it returns the saved member or throws. */
  datatype Outcome = Returned(member: Member) | Threw(exception: Exception)

  /** The message of the duplicate-email failure. */
  function DuplicateEmailMessage(email: string): string {
    "Email address " + email + " is already registered."
  }

  /** What the service keeps true of the store: every document has an id,
      ids and emails are unique, and every document passes validation. */
  predicate StoreInvariant(store: Store, emailSyntax: string -> bool) {
    && HasIds(store)
    && UniqueIds(store)
    && UniqueEmails(store)
    && forall i :: 0 <= i < |store| ==> FieldValid(store[i], emailSyntax)
  }

  /** Some stored member already has this email. */
  predicate EmailRegistered(store: Store, email: Option<string>) {
    exists j :: 0 <= j < |store| && store[j].email == email
  }

  /** `validateMember`: throws with the full violation set when there is
      any violation. */
  function ValidateMember(m: Member, emailSyntax: string -> bool): (r: Outcome)
    ensures r.Threw? <==> !FieldValid(m, emailSyntax)
    ensures r.Threw? ==> r.exception == ConstraintViolationException(Validate(m, emailSyntax))
    ensures r.Returned? ==> r.member == m
  {
    var violations := Validate(m, emailSyntax);
    if violations != {} then Threw(ConstraintViolationException(violations)) else Returned(m)
  }

  /** `register`. */
  function Register(store: Store, candidate: Member, emailSyntax: string -> bool): (r: (Outcome, Store))
    // an invalid candidate: the full violation set, store untouched
    ensures !FieldValid(candidate, emailSyntax) ==>
              r.1 == store
              && r.0.Threw? && r.0.exception.ConstraintViolationException?
              && r.0.exception.violations == Validate(candidate, emailSyntax)
              && r.0.exception.violations != {}
    // a valid candidate whose email is taken: the duplicate message, store untouched
    ensures FieldValid(candidate, emailSyntax) && EmailRegistered(store, candidate.email) ==>
              r == (Threw(ValidationException(DuplicateEmailMessage(candidate.email.value))), store)
    // a valid candidate with a fresh email: saved with the same fields
    ensures FieldValid(candidate, emailSyntax) && !EmailRegistered(store, candidate.email) ==>
              r.0.Returned? && SameFields(r.0.member, candidate) && r.0.member.id.Some?
              && r.0.member in r.1
    // ... and, arriving without an id, appended under a fresh id
    ensures FieldValid(candidate, emailSyntax) && !EmailRegistered(store, candidate.email) && candidate.id.None? ==>
              r.1 == store + [r.0.member]
              && forall j :: 0 <= j < |store| ==> store[j].id != r.0.member.id
    // ... arriving with a stored id, written over that document and nothing else
    ensures FieldValid(candidate, emailSyntax) && !EmailRegistered(store, candidate.email) && SaveTarget(store, candidate).Some? ==>
              var i := SaveTarget(store, candidate).value;
              r.0 == Returned(candidate) && |r.1| == |store| && r.1[i] == candidate
              && forall j :: 0 <= j < |store| && j != i ==> r.1[j] == store[j]
    // ... arriving with an unknown id, appended under it
    ensures FieldValid(candidate, emailSyntax) && !EmailRegistered(store, candidate.email)
            && candidate.id.Some? && SaveTarget(store, candidate).None? ==>
              r == (Returned(candidate), store + [candidate])
    // only the two validation failures can be thrown
    ensures r.0.Threw? ==> r.0.exception.ConstraintViolationException? || r.0.exception.ValidationException?
    ensures r.0.Threw? ==> r.1 == store
  {
    match ValidateMember(candidate, emailSyntax)
    case Threw(e) => (Threw(e), store)
    case Returned(_) =>
      var email := candidate.email.value;
      if FindByEmail(store, email).Some? then
        (Threw(ValidationException(DuplicateEmailMessage(email))), store)
      else
        match Save(store, candidate)
        case Success(saved) => (Returned(saved.member), saved.store)
        case Failure(e) => (Threw(e), store)
  }

  /** Validation comes strictly before the uniqueness check: a candidate that
      is invalid AND reuses a stored email gets the constraint violations,
      never the duplicate-email failure. */
  lemma ValidationBeforeUniqueness(store: Store, candidate: Member, emailSyntax: string -> bool)
    requires !FieldValid(candidate, emailSyntax)
    requires EmailRegistered(store, candidate.email)
    ensures Register(store, candidate, emailSyntax).0 == Threw(ConstraintViolationException(Validate(candidate, emailSyntax)))
    ensures !Register(store, candidate, emailSyntax).0.exception.ValidationException?
  {
  }

  /** An invalid candidate never reaches the store: the outcome is the same
      whatever the store holds. */
  lemma InvalidCandidateIgnoresStore(s1: Store, s2: Store, candidate: Member, emailSyntax: string -> bool)
    requires !FieldValid(candidate, emailSyntax)
    ensures Register(s1, candidate, emailSyntax).0 == Register(s2, candidate, emailSyntax).0
  {
  }

  /** `register` preserves the store invariant: ids present and unique,
      emails unique, every stored member valid. */
  lemma RegisterPreservesInvariant(store: Store, candidate: Member, emailSyntax: string -> bool)
    requires StoreInvariant(store, emailSyntax)
    ensures StoreInvariant(Register(store, candidate, emailSyntax).1, emailSyntax)
  {
    if Register(store, candidate, emailSyntax).0.Returned? {
      SavePreservesStoreInvariants(store, candidate);
    }
  }

  /** A member `register` returned can be read back by id and by email. */
  lemma RegisteredMemberIsRetrievable(store: Store, candidate: Member, emailSyntax: string -> bool)
    requires StoreInvariant(store, emailSyntax)
    requires Register(store, candidate, emailSyntax).0.Returned?
    ensures var (outcome, store') := Register(store, candidate, emailSyntax);
            && FindById(store', outcome.member.id.value) == Some(outcome.member)
            && FindByEmail(store', outcome.member.email.value) == Some(outcome.member)
  {
  }

  /** A second registration with an email already registered fails with the
      duplicate message, whatever its name and phone number. */
  lemma SecondRegistrationConflicts(store: Store, first: Member, second: Member, emailSyntax: string -> bool)
    requires Register(store, first, emailSyntax).0.Returned?
    requires FieldValid(second, emailSyntax) && second.email == first.email
    ensures Register(Register(store, first, emailSyntax).1, second, emailSyntax)
            == (Threw(ValidationException(DuplicateEmailMessage(first.email.value))), Register(store, first, emailSyntax).1)
  {
  }

  /** `findAll`: all members, sorted by name. */
  function FindAll(store: Store): (r: seq<Member>)
    ensures multiset(r) == multiset(store)
    ensures SortedByName(r)
  {
    FindAllByOrderByNameAsc(store)
  }

  /** `findById`. */
  function FindMemberById(store: Store, id: string): (r: Option<Member>)
    ensures r.Some? ==> r.value in store && r.value.id == Some(id)
    ensures r.None? <==> forall j :: 0 <= j < |store| ==> store[j].id != Some(id)
  {
    FindById(store, id)
  }

  /** `findByEmail`. */
  function FindMemberByEmail(store: Store, email: string): (r: Option<Member>)
    ensures r.Some? ==> r.value in store && r.value.email == Some(email)
    ensures r.None? <==> forall j :: 0 <= j < |store| ==> store[j].email != Some(email)
  {
    FindByEmail(store, email)
  }
}
