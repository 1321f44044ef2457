/** Concrete requests, stated over the whole model. The controller's tests
    send these requests to a mocked service; here they run against the real
    workflow: validation, the uniqueness check, the store and the handler.
    The e-mail grammar is a parameter; each scenario assumes only that it
    accepts the addresses used. */
module Scenarios {
  import opened Wrappers
  import opened Chars
  import opened Decimals
  import opened MemberModel
  import opened Exceptions
  import opened MemberRepository
  import opened MemberService
  import opened MemberController

  const JaneEmail: string := "jane.doe@example.com"

  /** A name with digits and otherwise valid fields: 400 with exactly one
      entry, `name` -> "Must not contain numbers". */
  lemma NameWithDigitsIsBadRequest(store: Store, emailSyntax: string -> bool)
    requires emailSyntax(JaneEmail)
    ensures CreateMember(store, NewMember(Some("Jane123"), Some(JaneEmail), Some("0987654321")), emailSyntax)
            == (Respond(BadRequest, FieldErrors(map["name" := Text("Must not contain numbers")])), store)
  {
    var m := NewMember(Some("Jane123"), Some(JaneEmail), Some("0987654321"));
    assert "Jane123"[4] == '1';
    assert AllDigits("0987654321");
    OnlyNamePatternFails(m, emailSyntax);
    CreateMemberSingleViolation(store, m, emailSyntax, Violation(Name, Pattern(NoDigits, NameDigitsMessage)));
  }

  /** A name of the right length that contains a digit, with a valid email
      and phone number, breaks the name pattern and nothing else. */
  lemma OnlyNamePatternFails(m: Member, emailSyntax: string -> bool)
    requires m.name.Some? && 1 <= |m.name.value| <= 25 && HasDigit(m.name.value)
    requires EmailValid(m.email, emailSyntax) && PhoneValid(m.phoneNumber)
    ensures Validate(m, emailSyntax) == {Violation(Name, Pattern(NoDigits, NameDigitsMessage))}
  {
    var bad := Violation(Name, Pattern(NoDigits, NameDigitsMessage));
    var vs := Validate(m, emailSyntax);
    DigitsImpliedBySizeAndPattern(m.phoneNumber.value);
    assert Annotations(Name)[2] == bad.constraint;
    assert bad in vs;
    forall v | v in vs
      ensures v == bad
    {
      assert v.constraint in Annotations(v.field);
    }
  }

  /** The phone number "invalid-phone" breaks both the size and the pattern
      constraint of `phoneNumber`, so building the error map throws: the
      request does NOT get a 400 with "Must contain only numbers". */
  lemma InvalidPhoneEscapes(store: Store, emailSyntax: string -> bool)
    requires emailSyntax(JaneEmail)
    ensures var (reply, store') := CreateMember(store, NewMember(Some("Jane Doe"), Some(JaneEmail), Some("invalid-phone")), emailSyntax);
            reply == Escapes(IllegalStateException) && store' == store
  {
    var m := NewMember(Some("Jane Doe"), Some(JaneEmail), Some("invalid-phone"));
    var vs := Validate(m, emailSyntax);
    assert Annotations(PhoneNumber)[1] == Size(10, 12);
    assert Annotations(PhoneNumber)[3] == Pattern(OneOrMoreDigits, PhoneDigitsMessage);
    assert !IsAsciiDigit("invalid-phone"[0]);
    var a := Violation(PhoneNumber, Size(10, 12));
    var b := Violation(PhoneNumber, Pattern(OneOrMoreDigits, PhoneDigitsMessage));
    assert {a, b} <= FieldViolations(vs, PhoneNumber);
    SubsetCardinality({a, b}, FieldViolations(vs, PhoneNumber));
    CreateMemberSharedFieldEscapes(store, m, emailSyntax, PhoneNumber);
  }

  /** A phone number of the right length that reads as a number of at most
      twelve integer digits, but is not ASCII digits only, breaks the pattern
      and nothing else: with a valid name and email it is the one
      violation. */
  lemma OnlyPhonePatternFails(m: Member, emailSyntax: string -> bool)
    requires NameValid(m.name) && EmailValid(m.email, emailSyntax)
    requires m.phoneNumber.Some? && 10 <= |m.phoneNumber.value| <= 12
    requires DigitsAccept(m.phoneNumber.value, 12, 0) && !AllDigits(m.phoneNumber.value)
    ensures Validate(m, emailSyntax) == {Violation(PhoneNumber, Pattern(OneOrMoreDigits, PhoneDigitsMessage))}
  {
    var bad := Violation(PhoneNumber, Pattern(OneOrMoreDigits, PhoneDigitsMessage));
    var vs := Validate(m, emailSyntax);
    assert Annotations(PhoneNumber)[3] == bad.constraint;
    assert bad in vs;
    forall v | v in vs
      ensures v == bad
    {
      assert v.constraint in Annotations(v.field);
    }
  }

  /** The reply when the phone pattern is the one violation. */
  lemma OnlyPhonePatternIsBadRequest(store: Store, m: Member, emailSyntax: string -> bool)
    requires NameValid(m.name) && EmailValid(m.email, emailSyntax)
    requires m.phoneNumber.Some? && 10 <= |m.phoneNumber.value| <= 12
    requires DigitsAccept(m.phoneNumber.value, 12, 0) && !AllDigits(m.phoneNumber.value)
    ensures CreateMember(store, m, emailSyntax)
            == (Respond(BadRequest, FieldErrors(map["phoneNumber" := Text("Must contain only numbers")])), store)
  {
    OnlyPhonePatternFails(m, emailSyntax);
    CreateMemberSingleViolation(store, m, emailSyntax, Violation(PhoneNumber, Pattern(OneOrMoreDigits, PhoneDigitsMessage)));
  }

  /** "1234567890." reads as a number with ten integer digits, so `@Digits`
      passes and only the pattern fails: 400 with exactly one entry,
      `phoneNumber` -> "Must contain only numbers". */
  lemma TrailingPointPhoneIsBadRequest(store: Store, emailSyntax: string -> bool)
    requires emailSyntax(JaneEmail)
    ensures CreateMember(store, NewMember(Some("Jane Doe"), Some(JaneEmail), Some("1234567890.")), emailSyntax)
            == (Respond(BadRequest, FieldErrors(map["phoneNumber" := Text("Must contain only numbers")])), store)
  {
    var m := NewMember(Some("Jane Doe"), Some(JaneEmail), Some("1234567890."));
    JaneDoeIsValidName();
    TrailingPointPhoneIsNumber();
    assert !IsAsciiDigit("1234567890."[10]);
    OnlyPhonePatternIsBadRequest(store, m, emailSyntax);
  }

  /** "1E2147483647" has, in Java `int` arithmetic, a negative number of
      integer digits, so `@Digits` passes and only the pattern fails: 400
      with exactly one entry, `phoneNumber` -> "Must contain only numbers". */
  lemma WrappedExponentPhoneIsBadRequest(store: Store, emailSyntax: string -> bool)
    requires emailSyntax(JaneEmail)
    ensures CreateMember(store, NewMember(Some("Jane Doe"), Some(JaneEmail), Some("1E2147483647")), emailSyntax)
            == (Respond(BadRequest, FieldErrors(map["phoneNumber" := Text("Must contain only numbers")])), store)
  {
    var m := NewMember(Some("Jane Doe"), Some(JaneEmail), Some("1E2147483647"));
    JaneDoeIsValidName();
    DigitsWrapAtIntRange();
    assert !IsAsciiDigit("1E2147483647"[1]);
    OnlyPhonePatternIsBadRequest(store, m, emailSyntax);
  }

  /** Ten Arabic-Indic digits are digits to the decimal reader but not to
      `[0-9]`: only the pattern fails, and the reply is 400. */
  lemma ArabicIndicPhoneIsBadRequest(store: Store, emailSyntax: string -> bool)
    requires emailSyntax(JaneEmail)
    ensures CreateMember(store, NewMember(Some("Jane Doe"), Some(JaneEmail), Some(ArabicIndicPhone)), emailSyntax)
            == (Respond(BadRequest, FieldErrors(map["phoneNumber" := Text("Must contain only numbers")])), store)
  {
    var m := NewMember(Some("Jane Doe"), Some(JaneEmail), Some(ArabicIndicPhone));
    JaneDoeIsValidName();
    ArabicIndicPhoneIsNumber();
    assert !IsAsciiDigit(ArabicIndicPhone[0]);
    OnlyPhonePatternIsBadRequest(store, m, emailSyntax);
  }

  lemma TrailingPointPhoneIsNumber()
    ensures DigitsAccept("1234567890.", 12, 0)
  {
    var digits := "1234567890";
    AsciiDigitsAreDecimal(digits);
    DigitsOnTrailingPoint(digits, 12, 0);
    assert digits + "." == "1234567890.";
  }

  /** "0987654321" written with the digits U+0660 to U+0669. */
  const ArabicIndicPhone: string := "\U{660}\U{669}\U{668}\U{667}\U{666}\U{665}\U{664}\U{663}\U{662}\U{661}"

  lemma ArabicIndicPhoneIsNumber()
    ensures DigitsAccept(ArabicIndicPhone, 12, 0)
  {
    var p := ArabicIndicPhone;
    assert forall i :: 0 <= i < |p| ==> 0x0660 <= p[i] as int < 0x066A;
    assert forall i :: 0 <= i < |p| ==> DigitValue(p[i]) == Some(p[i] as int - 0x0660);
    assert AllDecimalDigits(p);
    DigitsOnInteger("", p, 12, 0);
    assert "" + p == p;
  }

  lemma JaneDoeIsValidName()
    ensures NameValid(Some("Jane Doe"))
  {
    assert !HasDigit("Jane Doe") by {
      forall i | 0 <= i < |"Jane Doe"|
        ensures !IsAsciiDigit("Jane Doe"[i])
      {
      }
    }
  }

  /** Registering "Jane Doe" on an empty store succeeds: 201, the same
      fields, a non-empty id, and the store holds just that member. */
  lemma FirstRegistrationSucceeds(emailSyntax: string -> bool)
    requires emailSyntax(JaneEmail)
    ensures var (reply, store') := CreateMember([], NewMember(Some("Jane Doe"), Some(JaneEmail), Some("0987654321")), emailSyntax);
            && reply.Respond? && reply.status == Created && reply.body.MemberBody?
            && reply.body.member.name == Some("Jane Doe")
            && reply.body.member.email == Some(JaneEmail)
            && reply.body.member.phoneNumber == Some("0987654321")
            && reply.body.member.id.Some? && |reply.body.member.id.value| > 0
            && store' == [reply.body.member]
  {
    var m := NewMember(Some("Jane Doe"), Some(JaneEmail), Some("0987654321"));
    JaneDoeIsValidName();
    assert FieldValid(m, emailSyntax);
    CreateMemberSucceeds([], m, emailSyntax);
  }

  /** Registering the same email twice: the second attempt gets 409 with the
      duplicate message naming the address. */
  lemma SameEmailTwiceConflicts(store: Store, first: Member, second: Member, emailSyntax: string -> bool)
    requires FieldValid(first, emailSyntax) && FieldValid(second, emailSyntax)
    requires first.email == Some(JaneEmail) && second.email == first.email
    requires !EmailRegistered(store, first.email)
    ensures CreateMember(CreateMember(store, first, emailSyntax).1, second, emailSyntax).0
            == Respond(Conflict, ErrorBody(map["error" := "Email address jane.doe@example.com is already registered."]))
  {
    DuplicateMessageText();
    CreateMemberSucceeds(store, first, emailSyntax);
    var store' := CreateMember(store, first, emailSyntax).1;
    var saved := CreateMember(store, first, emailSyntax).0.body.member;
    assert store'[|store|] == saved;
    assert EmailRegistered(store', second.email);
    CreateMemberConflict(store', second, emailSyntax);
  }

  /** The duplicate message for the address used above, spelled out. */
  lemma DuplicateMessageText()
    ensures DuplicateEmailMessage(JaneEmail) == "Email address jane.doe@example.com is already registered."
  {
    assert "Email address " + JaneEmail + " is already registered." == "Email address jane.doe@example.com is already registered.";
  }

  /** The listing is ordered by name, not by insertion: a store holding
      "Zoe" and then "Amy" is listed with Amy first. */
  lemma ListingIsOrderedByName(zoe: Member, amy: Member)
    requires zoe.name == Some("Zoe") && amy.name == Some("Amy")
    ensures var listed := ListAllMembers([zoe, amy]);
            |listed| == 2 && listed[0].name == Some("Amy") && listed[1].name == Some("Zoe")
  {
  }
}
