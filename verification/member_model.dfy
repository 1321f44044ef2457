/** The `Member` document and the Bean Validation constraints declared on its
    fields (model/Member.java). The validator evaluates every declared
    constraint of every field and collects all that fail; it never stops at
    the first. */
module MemberModel {
  import opened Wrappers
  import opened Chars
  import opened Decimals

  /** A member record. Every field is a nullable Java `String`; `id` is
      absent until the store assigns one. */
  datatype Member = Member(
    id: Option<string>,
    name: Option<string>,
    email: Option<string>,
    phoneNumber: Option<string>)

  /** The three-argument constructor: sets the business fields as given and
      leaves `id` absent. */
  function NewMember(name: Option<string>, email: Option<string>, phoneNumber: Option<string>): (m: Member)
    ensures m.id.None?
    ensures m.name == name && m.email == email && m.phoneNumber == phoneNumber
  {
    Member(None, name, email, phoneNumber)
  }

  /** The validated properties of a member. */
  datatype Field = Name | Email | PhoneNumber

  /** The property path a violation reports for the field. */
  function PropertyPath(f: Field): string {
    match f
    case Name => "name"
    case Email => "email"
    case PhoneNumber => "phoneNumber"
  }

  lemma PropertyPathInjective(f: Field, g: Field)
    requires PropertyPath(f) == PropertyPath(g)
    ensures f == g
  {
  }

  function ValueOf(m: Member, f: Field): Option<string> {
    match f
    case Name => m.name
    case Email => m.email
    case PhoneNumber => m.phoneNumber
  }

  /** The two regular expressions used by `@Pattern`. */
  datatype Regex =
    | NoDigits         // [^0-9]*
    | OneOrMoreDigits  // [0-9]+

  /** `@Pattern` requires the WHOLE value to match. */
  predicate FullMatch(re: Regex, s: string) {
    match re
    case NoDigits => !HasDigit(s)
    case OneOrMoreDigits => |s| > 0 && AllDigits(s)
  }

  /** The constraint annotations that occur on `Member`. */
  datatype Constraint =
    | NotNull
    | NotEmpty
    | Size(min: nat, max: nat)
    | Pattern(regexp: Regex, message: string)
    | EmailSyntax
    | Digits(integer: nat, fraction: nat)

  /** A violation's message: the explicit text given on the annotation, or
      the library's default message for the constraint, which is left
      symbolic. */
  datatype Message = Text(text: string) | DefaultMessage(constraint: Constraint)

  function MessageOf(c: Constraint): Message {
    match c
    case Pattern(_, text) => Text(text)
    case _ => DefaultMessage(c)
  }

  /** One failed constraint on one field. */
  datatype Violation = Violation(field: Field, constraint: Constraint)

  const NameDigitsMessage: string := "Must not contain numbers"
  const PhoneDigitsMessage: string := "Must contain only numbers"

  /** The annotations declared on each field, in declaration order. */
  function Annotations(f: Field): seq<Constraint> {
    match f
    case Name => [NotNull, Size(1, 25), Pattern(NoDigits, NameDigitsMessage)]
    case Email => [NotNull, NotEmpty, EmailSyntax]
    case PhoneNumber => [NotNull, Size(10, 12), Digits(12, 0), Pattern(OneOrMoreDigits, PhoneDigitsMessage)]
  }

  /** `@Digits` on text: the value must read as a `BigDecimal` with at most
      `integer` integer digits (precision less scale) and at most `fraction`
      fraction digits (the scale, when positive). Text that does not read as
      a number is rejected. */
  function DigitsAccept(s: string, integer: nat, fraction: nat): (ok: bool)
    ensures ok ==> ParseBigDecimal(s).Some?
    ensures ok ==> exists i :: 0 <= i < |s| && IsDecimalDigit(s[i])
  {
    match ParseBigDecimal(s)
    case None => false
    case Some(d) => Int32(d.precision - d.scale) <= integer && (if d.scale < 0 then 0 else d.scale) <= fraction
  }

  /** Whether constraint `c` accepts the field value `v`. Only `@NotNull` and
      `@NotEmpty` reject a null value; every other constraint accepts it.
      `emailSyntax` is the library's e-mail grammar, left uninterpreted. */
  function Holds(c: Constraint, v: Option<string>, emailSyntax: string -> bool): (ok: bool)
    ensures v.None? ==> (ok <==> !c.NotNull? && !c.NotEmpty?)
    ensures c.NotEmpty? && ok ==> v.Some? && |v.value| > 0
    ensures c.Digits? && ok && v.Some? ==> ParseBigDecimal(v.value).Some?
  {
    match c
    case NotNull => v.Some?
    case NotEmpty => v.Some? && |v.value| > 0
    case Size(min, max) => v.None? || min <= |v.value| <= max
    case Pattern(re, _) => v.None? || FullMatch(re, v.value)
    case EmailSyntax => v.None? || emailSyntax(v.value)
    case Digits(integer, fraction) => v.None? || DigitsAccept(v.value, integer, fraction)
  }

  const AllFields: set<Field> := {Name, Email, PhoneNumber}

  /** Every field rule, written out directly: the reference the validator is
      proved against. */
  predicate NameValid(name: Option<string>) {
    name.Some? && 1 <= |name.value| <= 25 && !HasDigit(name.value)
  }

  predicate EmailValid(email: Option<string>, emailSyntax: string -> bool) {
    email.Some? && |email.value| > 0 && emailSyntax(email.value)
  }

  predicate PhoneValid(phone: Option<string>) {
    phone.Some? && 10 <= |phone.value| <= 12 && AllDigits(phone.value)
  }

  predicate FieldRule(m: Member, f: Field, emailSyntax: string -> bool) {
    match f
    case Name => NameValid(m.name)
    case Email => EmailValid(m.email, emailSyntax)
    case PhoneNumber => PhoneValid(m.phoneNumber)
  }

  predicate FieldValid(m: Member, emailSyntax: string -> bool) {
    NameValid(m.name) && EmailValid(m.email, emailSyntax) && PhoneValid(m.phoneNumber)
  }

  /** The violations of one field. */
  function FieldViolations(vs: set<Violation>, f: Field): set<Violation> {
    set v | v in vs && v.field == f
  }

  /** Validate a candidate against every declared constraint. The result is
      empty exactly when every field rule holds. */
  function Validate(m: Member, emailSyntax: string -> bool): (vs: set<Violation>)
    ensures forall v :: v in vs <==> v.constraint in Annotations(v.field) && !Holds(v.constraint, ValueOf(m, v.field), emailSyntax)
    ensures vs == {} <==> FieldValid(m, emailSyntax)
  {
    var vs := set f, c | f in AllFields && c in Annotations(f) && !Holds(c, ValueOf(m, f), emailSyntax) :: Violation(f, c);
    ValidateAgreesWithRules(m, emailSyntax, vs);
    vs
  }

  lemma ValidateAgreesWithRules(m: Member, emailSyntax: string -> bool, vs: set<Violation>)
    requires vs == set f, c | f in AllFields && c in Annotations(f) && !Holds(c, ValueOf(m, f), emailSyntax) :: Violation(f, c)
    ensures forall v :: v in vs <==> v.constraint in Annotations(v.field) && !Holds(v.constraint, ValueOf(m, v.field), emailSyntax)
    ensures forall f :: FieldViolations(vs, f) == {} <==> FieldRule(m, f, emailSyntax)
    ensures vs == {} <==> FieldValid(m, emailSyntax)
  {
    forall v
      ensures v in vs <==> v.constraint in Annotations(v.field) && !Holds(v.constraint, ValueOf(m, v.field), emailSyntax)
    {
      if v.constraint in Annotations(v.field) && !Holds(v.constraint, ValueOf(m, v.field), emailSyntax) {
        assert v.field in AllFields;
        assert v == Violation(v.field, v.constraint);
      }
    }
    forall f
      ensures FieldViolations(vs, f) == {} <==> FieldRule(m, f, emailSyntax)
    {
      FieldRuleIsConjunction(m, f, emailSyntax);
      if FieldViolations(vs, f) == {} {
        forall c | c in Annotations(f)
          ensures Holds(c, ValueOf(m, f), emailSyntax)
        {
          assert Violation(f, c) !in FieldViolations(vs, f);
        }
      } else {
        var v :| v in FieldViolations(vs, f);
        assert v.constraint in Annotations(f) && !Holds(v.constraint, ValueOf(m, f), emailSyntax);
      }
    }
    assert FieldValid(m, emailSyntax) <==> FieldRule(m, Name, emailSyntax) && FieldRule(m, Email, emailSyntax) && FieldRule(m, PhoneNumber, emailSyntax);
    assert vs == FieldViolations(vs, Name) + FieldViolations(vs, Email) + FieldViolations(vs, PhoneNumber);
  }

  /** Validation looks at the business fields only, never at `id`. */
  lemma ValidateIgnoresId(m: Member, id: Option<string>, emailSyntax: string -> bool)
    ensures Validate(m.(id := id), emailSyntax) == Validate(m, emailSyntax)
  {
  }

  /** A field's rule holds exactly when every constraint declared on it
      holds; for the phone number the `@Digits` constraint is implied by the
      other two. */
  lemma FieldRuleIsConjunction(m: Member, f: Field, emailSyntax: string -> bool)
    ensures FieldRule(m, f, emailSyntax) <==> forall c :: c in Annotations(f) ==> Holds(c, ValueOf(m, f), emailSyntax)
  {
    var v := ValueOf(m, f);
    match f
    case Name =>
      assert Annotations(f) == [NotNull, Size(1, 25), Pattern(NoDigits, NameDigitsMessage)];
      if forall c :: c in Annotations(f) ==> Holds(c, v, emailSyntax) {
        assert Holds(NotNull, v, emailSyntax) && Holds(Size(1, 25), v, emailSyntax);
        assert Holds(Pattern(NoDigits, NameDigitsMessage), v, emailSyntax);
      }
    case Email =>
      assert Annotations(f) == [NotNull, NotEmpty, EmailSyntax];
      if forall c :: c in Annotations(f) ==> Holds(c, v, emailSyntax) {
        assert Holds(NotEmpty, v, emailSyntax) && Holds(EmailSyntax, v, emailSyntax);
      }
    case PhoneNumber =>
      assert Annotations(f) == [NotNull, Size(10, 12), Digits(12, 0), Pattern(OneOrMoreDigits, PhoneDigitsMessage)];
      if forall c :: c in Annotations(f) ==> Holds(c, v, emailSyntax) {
        assert Holds(NotNull, v, emailSyntax) && Holds(Size(10, 12), v, emailSyntax);
        assert Holds(Pattern(OneOrMoreDigits, PhoneDigitsMessage), v, emailSyntax);
      }
      if v.Some? && 10 <= |v.value| <= 12 && AllDigits(v.value) {
        DigitsImpliedBySizeAndPattern(v.value);
      }
  }

  /** On an integer numeral, with or without a sign, `@Digits` counts the
      significant digits: leading zeros are free, and any fraction bound is
      met. */
  lemma {:induction false} DigitsOnInteger(sign: string, d: string, integer: nat, fraction: nat)
    requires sign == "" || sign == "+" || sign == "-"
    requires |d| > 0 && AllDecimalDigits(d)
    ensures DigitsAccept(sign + d, integer, fraction) <==> Int32(Precision(d)) <= integer
    ensures Precision(d) <= IntMax ==> (DigitsAccept(sign + d, integer, fraction) <==> Precision(d) <= integer)
  {
    ParseInteger(sign, d);
  }

  /** A trailing decimal point changes nothing: "1234567890." has ten
      integer digits and no fraction digit, like "1234567890". */
  lemma {:induction false} DigitsOnTrailingPoint(d: string, integer: nat, fraction: nat)
    requires |d| > 0 && AllDecimalDigits(d)
    ensures DigitsAccept(d + ".", integer, fraction) <==> Int32(Precision(d)) <= integer
    ensures Precision(d) <= IntMax ==> (DigitsAccept(d + ".", integer, fraction) <==> Precision(d) <= integer)
  {
    ParseTrailingPoint(d);
  }

  /** An exponent adds integer digits: "123456789E1" has ten. An exponent
      beyond the `int` range makes the text no number, and the count is
      taken in Java `int` arithmetic, so past that range it wraps. */
  lemma {:induction false} DigitsOnExponent(d: string, x: string, integer: nat, fraction: nat)
    requires |d| > 0 && AllDecimalDigits(d)
    requires |x| > 0 && AllDecimalDigits(x)
    ensures IntMax < DigitsValue(x) ==> !DigitsAccept(d + ("E" + x), integer, fraction)
    ensures DigitsValue(x) <= IntMax ==>
              (DigitsAccept(d + ("E" + x), integer, fraction) <==> Int32(Precision(d) + DigitsValue(x)) <= integer)
    ensures Precision(d) + DigitsValue(x) <= IntMax ==>
              (DigitsAccept(d + ("E" + x), integer, fraction) <==> Precision(d) + DigitsValue(x) <= integer)
  {
    if DigitsValue(x) <= IntMax {
      DigitsOnExponentInRange(d, x, integer, fraction);
    } else {
      ParseExponentOverflow(d, x);
    }
  }

  lemma {:induction false} DigitsOnExponentInRange(d: string, x: string, integer: nat, fraction: nat)
    requires |d| > 0 && AllDecimalDigits(d)
    requires |x| > 0 && AllDecimalDigits(x) && DigitsValue(x) <= IntMax
    ensures DigitsAccept(d + ("E" + x), integer, fraction) <==> Int32(Precision(d) + DigitsValue(x)) <= integer
  {
    ParseScientific(d, x);
    DigitsAcceptOf(d + ("E" + x), Decimal(Precision(d), -(DigitsValue(x) as int)), integer, fraction);
  }

  /** `@Digits` on a text whose reading is known. */
  lemma {:induction false} DigitsAcceptOf(s: string, n: Decimal, integer: nat, fraction: nat)
    requires ParseBigDecimal(s) == Some(n)
    ensures DigitsAccept(s, integer, fraction) <==>
              Int32(n.precision - n.scale) <= integer && (if n.scale < 0 then 0 else n.scale) <= fraction
  {
  }

  /** The wrap is visible: "1E2147483647" has 2147483648 integer digits,
      which as an `int` is negative, so `@Digits(integer = 12)` accepts it. */
  lemma DigitsWrapAtIntRange()
    ensures DigitsAccept("1E2147483647", 12, 0)
  {
    var x := "2147483647";
    IntMaxDigits();
    OneHasPrecisionOne();
    DigitsOnExponent("1", x, 12, 0);
    assert "1" + ("E" + x) == "1E2147483647";
  }

  /** One more in the exponent and the text is not a number. */
  lemma DigitsExponentOverflow()
    ensures !DigitsAccept("1E2147483648", 12, 0)
  {
    var y := "2147483648";
    PastIntMaxDigits();
    OneHasPrecisionOne();
    DigitsOnExponent("1", y, 12, 0);
    assert "1" + ("E" + y) == "1E2147483648";
  }

  lemma OneHasPrecisionOne()
    ensures AllDecimalDigits("1") && Precision("1") == 1
  {
    AsciiDigitsAreDecimal("1");
    assert DigitValue('1') == Some(1);
  }

  /** The nine leading digits of both exponents below. */
  lemma LeadingNineDigits()
    ensures AllDecimalDigits("214748364") && DigitsValue("214748364") == 214748364
  {
    AsciiDigitsAreDecimal("2");
    assert DigitsValue("2") == 2;
    DigitsValueAppend("2", '1');
    assert "2" + ['1'] == "21";
    DigitsValueAppend("21", '4');
    assert "21" + ['4'] == "214";
    DigitsValueAppend("214", '7');
    assert "214" + ['7'] == "2147";
    DigitsValueAppend("2147", '4');
    assert "2147" + ['4'] == "21474";
    DigitsValueAppend("21474", '8');
    assert "21474" + ['8'] == "214748";
    DigitsValueAppend("214748", '3');
    assert "214748" + ['3'] == "2147483";
    DigitsValueAppend("2147483", '6');
    assert "2147483" + ['6'] == "21474836";
    DigitsValueAppend("21474836", '4');
    assert "21474836" + ['4'] == "214748364";
  }

  /** The largest `int`. */
  lemma IntMaxDigits()
    ensures AllDecimalDigits("2147483647") && DigitsValue("2147483647") == IntMax
  {
    LeadingNineDigits();
    DigitsValueAppend("214748364", '7');
    assert "214748364" + ['7'] == "2147483647";
  }

  /** The first value past the `int` range. */
  lemma PastIntMaxDigits()
    ensures AllDecimalDigits("2147483648") && DigitsValue("2147483648") == IntMax + 1
  {
    LeadingNineDigits();
    DigitsValueAppend("214748364", '8');
    assert "214748364" + ['8'] == "2147483648";
  }

  /** The `@Digits(integer = 12, fraction = 0)` constraint on the phone number
      adds nothing: a value of 10 to 12 characters that are all digits
      always satisfies it. */
  lemma DigitsImpliedBySizeAndPattern(s: string)
    requires 10 <= |s| <= 12 && AllDigits(s)
    ensures DigitsAccept(s, 12, 0)
  {
    AsciiDigitsAreDecimal(s);
    DigitsOnInteger("", s, 12, 0);
    assert "" + s == s;
  }

  /** A name containing a digit is reported under `name` with the explicit
      message, and a name that is present and digit-free never draws that
      violation. */
  lemma NameDigitViolation(m: Member, emailSyntax: string -> bool)
    ensures var v := Violation(Name, Pattern(NoDigits, NameDigitsMessage));
            (v in Validate(m, emailSyntax) <==> m.name.Some? && HasDigit(m.name.value))
            && MessageOf(v.constraint) == Text("Must not contain numbers")
  {
  }

  /** A phone number that is present but not one or more ASCII digits is
      reported under `phoneNumber` with the explicit message. */
  lemma PhoneDigitViolation(m: Member, emailSyntax: string -> bool)
    ensures var v := Violation(PhoneNumber, Pattern(OneOrMoreDigits, PhoneDigitsMessage));
            (v in Validate(m, emailSyntax) <==> m.phoneNumber.Some? && !(|m.phoneNumber.value| > 0 && AllDigits(m.phoneNumber.value)))
            && MessageOf(v.constraint) == Text("Must contain only numbers")
  {
  }

  /** Validation does not stop at the first failure: a present phone number
      that is too short and contains a non-digit violates both the size and
      the pattern constraint of the same field. */
  lemma SeveralViolationsOnOneField(m: Member, emailSyntax: string -> bool)
    requires m.phoneNumber.Some? && |m.phoneNumber.value| < 10 && !AllDigits(m.phoneNumber.value)
    ensures Violation(PhoneNumber, Size(10, 12)) in Validate(m, emailSyntax)
    ensures Violation(PhoneNumber, Pattern(OneOrMoreDigits, PhoneDigitsMessage)) in Validate(m, emailSyntax)
    ensures |FieldViolations(Validate(m, emailSyntax), PhoneNumber)| >= 2
  {
    var vs := Validate(m, emailSyntax);
    var a := Violation(PhoneNumber, Size(10, 12));
    var b := Violation(PhoneNumber, Pattern(OneOrMoreDigits, PhoneDigitsMessage));
    assert Size(10, 12) == Annotations(PhoneNumber)[1];
    assert Pattern(OneOrMoreDigits, PhoneDigitsMessage) == Annotations(PhoneNumber)[3];
    assert {a, b} <= FieldViolations(vs, PhoneNumber);
    assert |{a, b}| == 2;
    SubsetCardinality({a, b}, FieldViolations(vs, PhoneNumber));
  }

  lemma SubsetCardinality<T>(a: set<T>, b: set<T>)
    requires a <= b
    ensures |a| <= |b|
  {
    assert b == a + (b - a);
  }
}
