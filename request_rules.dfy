/** The rule table declared on UserRequestDto: every field annotation becomes
    one rule, and every rule is checked on its own, so one bad field can yield
    several violations. */
module RequestRules {
  import opened Common
  import opened Dates
  import opened Text
  import opened Users
  import EmailValidator
  import DateValidator
  import NullOrNotBlankValidation

  /** The messages the annotations carry. */
  datatype RuleMessage =
    | FirstNameNull | FirstNameEmpty
    | LastNameNull | LastNameEmpty
    | EmailNull | EmailEmpty | EmailFormat
    | BirthDateNull | AgeTooLow
    | FieldBlank

  /** The text of each message, as the annotations declare it. */
  function MessageText(m: RuleMessage): string
  {
    match m
    case FirstNameNull => "First name can not be null."
    case FirstNameEmpty => "First name can not be empty."
    case LastNameNull => "Last name can not be null."
    case LastNameEmpty => "Last name can not be empty."
    case EmailNull => "Email can not be null."
    case EmailEmpty => "Email can not be empty."
    case EmailFormat => "Invalid email format."
    case BirthDateNull => "Birth Date can not be null."
    case AgeTooLow => "Age must be over 18."
    case FieldBlank => "Field can not be blank."
  }

  /** One ConstraintViolation: the property path and the annotation's message. */
  datatype Violation = Violation(path: string, message: RuleMessage)

  /** One rule: no violation when it holds, its message when it fails. */
  function Rule(holds: bool, path: string, message: RuleMessage): (vs: seq<Violation>)
    ensures |vs| <= 1
    ensures vs == [] <==> holds
    ensures !holds ==> vs == [Violation(path, message)]
  {
    if holds then [] else [Violation(path, message)]
  }

  /** Bean Validation over the whole DTO, rule by rule. `today` stands for the
      clock and `age` for the configured minimum age. */
  function Violations(dto: UserRequestDto, today: Date, age: int): (vs: seq<Violation>)
    requires ValidDate(today)
    ensures |vs| <= 11
    ensures forall i :: 0 <= i < |vs| ==> vs[i].path in FieldNames
  {
    RequiredViolations(dto, today, age)
    + Rule(NullOrNotBlankValidation.IsValid(dto.address), AddressKey, FieldBlank)
    + Rule(NullOrNotBlankValidation.IsValid(dto.phoneNumber), PhoneNumberKey, FieldBlank)
  }

  /** The rules of the four required fields, in declaration order. */
  function RequiredViolations(dto: UserRequestDto, today: Date, age: int): (vs: seq<Violation>)
    requires ValidDate(today)
    ensures |vs| <= 9
    ensures forall i :: 0 <= i < |vs| ==> vs[i].path in {FirstNameKey, LastNameKey, EmailKey, BirthDateKey}
  {
    NameViolations(dto.firstName, FirstNameKey, FirstNameNull, FirstNameEmpty)
    + NameViolations(dto.lastName, LastNameKey, LastNameNull, LastNameEmpty)
    + EmailViolations(dto.email)
    + BirthDateViolations(dto.birthDate, today, age)
  }

  /** @NotNull then @NotBlank on a required name. */
  function NameViolations(name: Option<string>, path: string, nullMessage: RuleMessage, blankMessage: RuleMessage): (vs: seq<Violation>)
    ensures |vs| <= 2
    ensures forall i :: 0 <= i < |vs| ==> vs[i].path == path
  {
    Rule(name.Some?, path, nullMessage)
    + Rule(NotBlank(name), path, blankMessage)
  }

  /** @NotNull, @NotBlank and @EmailValidation on the email. */
  function EmailViolations(email: Option<string>): (vs: seq<Violation>)
    ensures |vs| <= 3
    ensures forall i :: 0 <= i < |vs| ==> vs[i].path == EmailKey
  {
    Rule(email.Some?, EmailKey, EmailNull)
    + Rule(NotBlank(email), EmailKey, EmailEmpty)
    + Rule(EmailValidator.IsValid(email), EmailKey, EmailFormat)
  }

  /** @NotNull and @BirthDateValidation on the birth date. */
  function BirthDateViolations(date: Option<Date>, today: Date, age: int): (vs: seq<Violation>)
    requires ValidDate(today)
    ensures |vs| <= 2
    ensures forall i :: 0 <= i < |vs| ==> vs[i].path == BirthDateKey
  {
    Rule(date.Some?, BirthDateKey, BirthDateNull)
    + Rule(DateValidator.IsValid(date, today, age), BirthDateKey, AgeTooLow)
  }

  /** Each annotation on a name is reported once and nothing else is: both
      messages for a null name, none for one with a visible character, and
      the blank message alone otherwise. */
  lemma NameGroupExact(name: Option<string>, path: string, nullMessage: RuleMessage, blankMessage: RuleMessage)
    ensures NameViolations(name, path, nullMessage, blankMessage) ==
      if name.None? then [Violation(path, nullMessage), Violation(path, blankMessage)]
      else if HasVisibleChar(name.value) then []
      else [Violation(path, blankMessage)]
  {
  }

  /** The email's list exactly: all three messages for a null email;
      otherwise the blank message when it has no visible character, followed
      by the format message when it does not match the pattern. */
  lemma EmailGroupExact(email: Option<string>)
    ensures EmailViolations(email) ==
      if email.None? then
        [Violation(EmailKey, EmailNull), Violation(EmailKey, EmailEmpty), Violation(EmailKey, EmailFormat)]
      else
        (if HasVisibleChar(email.value) then [] else [Violation(EmailKey, EmailEmpty)])
        + (if EmailValidator.MatchesPattern(email.value) then [] else [Violation(EmailKey, EmailFormat)])
  {
  }

  /** The birth date's list exactly: both messages for a null date; for a
      present one, the age message alone when its holder is under `age`
      whole years, and nothing otherwise. */
  lemma BirthDateGroupExact(date: Option<Date>, today: Date, age: int)
    requires ValidDate(today)
    ensures date.None? ==>
      BirthDateViolations(date, today, age) == [Violation(BirthDateKey, BirthDateNull), Violation(BirthDateKey, AgeTooLow)]
    ensures date.Some? && ValidDate(date.value) ==>
      BirthDateViolations(date, today, age) ==
        if DateValidator.AgeInYears(date.value, today) >= age then [] else [Violation(BirthDateKey, AgeTooLow)]
  {
  }

  /** The group of rules declared on one required field. */
  function FieldViolations(dto: UserRequestDto, today: Date, age: int, path: string): seq<Violation>
    requires ValidDate(today)
  {
    if path == FirstNameKey then NameViolations(dto.firstName, FirstNameKey, FirstNameNull, FirstNameEmpty)
    else if path == LastNameKey then NameViolations(dto.lastName, LastNameKey, LastNameNull, LastNameEmpty)
    else if path == EmailKey then EmailViolations(dto.email)
    else BirthDateViolations(dto.birthDate, today, age)
  }

  /** A violation on a required field's path is in the whole list exactly
      when that field's own rules report it: no other field's rules can. */
  lemma OnlyOwnGroup(dto: UserRequestDto, today: Date, age: int, v: Violation)
    requires ValidDate(today)
    requires v.path in {FirstNameKey, LastNameKey, EmailKey, BirthDateKey}
    ensures v in Violations(dto, today, age) <==> v in FieldViolations(dto, today, age, v.path)
  {
    var first := NameViolations(dto.firstName, FirstNameKey, FirstNameNull, FirstNameEmpty);
    var last := NameViolations(dto.lastName, LastNameKey, LastNameNull, LastNameEmpty);
    var email := EmailViolations(dto.email);
    var birth := BirthDateViolations(dto.birthDate, today, age);
    var address := Rule(NullOrNotBlankValidation.IsValid(dto.address), AddressKey, FieldBlank);
    var phone := Rule(NullOrNotBlankValidation.IsValid(dto.phoneNumber), PhoneNumberKey, FieldBlank);
    assert Violations(dto, today, age) == first + last + email + birth + address + phone;
    assert v in Violations(dto, today, age) <==>
      v in first || v in last || v in email || v in birth || v in address || v in phone;
    assert v !in address && v !in phone;
  }

  /** Each required name is judged on its own value alone: its null message
      is reported exactly when it is null, its blank message exactly when it
      is null or has no character above U+0020, whatever the other fields
      hold. */
  lemma NameRules(dto: UserRequestDto, today: Date, age: int)
    requires ValidDate(today)
    ensures Violation(FirstNameKey, FirstNameNull) in Violations(dto, today, age) <==> dto.firstName.None?
    ensures Violation(FirstNameKey, FirstNameEmpty) in Violations(dto, today, age)
      <==> !(dto.firstName.Some? && HasVisibleChar(dto.firstName.value))
    ensures Violation(LastNameKey, LastNameNull) in Violations(dto, today, age) <==> dto.lastName.None?
    ensures Violation(LastNameKey, LastNameEmpty) in Violations(dto, today, age)
      <==> !(dto.lastName.Some? && HasVisibleChar(dto.lastName.value))
  {
    OnlyOwnGroup(dto, today, age, Violation(FirstNameKey, FirstNameNull));
    OnlyOwnGroup(dto, today, age, Violation(FirstNameKey, FirstNameEmpty));
    OnlyOwnGroup(dto, today, age, Violation(LastNameKey, LastNameNull));
    OnlyOwnGroup(dto, today, age, Violation(LastNameKey, LastNameEmpty));
  }

  /** The email's three rules, each on the email alone: a present but
      malformed address gets the format message and no other. */
  lemma EmailRules(dto: UserRequestDto, today: Date, age: int)
    requires ValidDate(today)
    ensures Violation(EmailKey, EmailNull) in Violations(dto, today, age) <==> dto.email.None?
    ensures Violation(EmailKey, EmailEmpty) in Violations(dto, today, age)
      <==> !(dto.email.Some? && HasVisibleChar(dto.email.value))
    ensures Violation(EmailKey, EmailFormat) in Violations(dto, today, age)
      <==> !(dto.email.Some? && EmailValidator.MatchesPattern(dto.email.value))
  {
    OnlyOwnGroup(dto, today, age, Violation(EmailKey, EmailNull));
    OnlyOwnGroup(dto, today, age, Violation(EmailKey, EmailEmpty));
    OnlyOwnGroup(dto, today, age, Violation(EmailKey, EmailFormat));
  }

  /** The birth date's two rules, each on the date alone: a present date less
      than `age` whole years ago gets the age message and no other. */
  lemma BirthDateRules(dto: UserRequestDto, today: Date, age: int)
    requires ValidDate(today)
    ensures Violation(BirthDateKey, BirthDateNull) in Violations(dto, today, age) <==> dto.birthDate.None?
    ensures dto.birthDate.None? ==> Violation(BirthDateKey, AgeTooLow) in Violations(dto, today, age)
    ensures dto.birthDate.Some? && ValidDate(dto.birthDate.value) ==>
      (Violation(BirthDateKey, AgeTooLow) in Violations(dto, today, age)
       <==> DateValidator.AgeInYears(dto.birthDate.value, today) < age)
  {
    OnlyOwnGroup(dto, today, age, Violation(BirthDateKey, BirthDateNull));
    OnlyOwnGroup(dto, today, age, Violation(BirthDateKey, AgeTooLow));
  }

  /** A DTO that passes every annotation: what the @Valid gate lets through. */
  predicate Passes(dto: UserRequestDto, today: Date, age: int): (b: bool)
    requires ValidDate(today)
    ensures b ==> HasRequiredFields(dto)
  {
    NotBlank(dto.firstName) && NotBlank(dto.lastName)
    && NotBlank(dto.email) && EmailValidator.IsValid(dto.email)
    && DateValidator.IsValid(dto.birthDate, today, age)
    && NullOrNotBlankValidation.IsValid(dto.address)
    && NullOrNotBlankValidation.IsValid(dto.phoneNumber)
  }

  function Messages(vs: seq<Violation>): (ms: seq<RuleMessage>)
    ensures |ms| == |vs|
    ensures forall i :: 0 <= i < |vs| ==> ms[i] == vs[i].message
  {
    if vs == [] then [] else [vs[0].message] + Messages(vs[1..])
  }

  /** No violation is reported exactly when every rule passes; a passing DTO
      has every column a row needs. */
  lemma NoViolationsIffPasses(dto: UserRequestDto, today: Date, age: int)
    requires ValidDate(today)
    ensures Violations(dto, today, age) == [] <==> Passes(dto, today, age)
    ensures Passes(dto, today, age) ==> HasRequiredFields(dto)
  {
  }

  /** A null first name breaks both of its rules; likewise the last name. */
  lemma NullNameReportsBoth(dto: UserRequestDto, today: Date, age: int)
    requires ValidDate(today)
    ensures dto.firstName.None? ==>
      Violation(FirstNameKey, FirstNameNull) in Violations(dto, today, age)
      && Violation(FirstNameKey, FirstNameEmpty) in Violations(dto, today, age)
    ensures dto.lastName.None? ==>
      Violation(LastNameKey, LastNameNull) in Violations(dto, today, age)
      && Violation(LastNameKey, LastNameEmpty) in Violations(dto, today, age)
  {
    var vs := Violations(dto, today, age);
    if dto.firstName.None? {
      assert vs[0] == Violation(FirstNameKey, FirstNameNull);
      assert vs[1] == Violation(FirstNameKey, FirstNameEmpty);
    }
  }

  /** A null email breaks all three of its rules; a null birth date both. */
  lemma NullEmailAndBirthDateReportAll(dto: UserRequestDto, today: Date, age: int)
    requires ValidDate(today)
    ensures dto.email.None? ==>
      Violation(EmailKey, EmailNull) in Violations(dto, today, age)
      && Violation(EmailKey, EmailEmpty) in Violations(dto, today, age)
      && Violation(EmailKey, EmailFormat) in Violations(dto, today, age)
    ensures dto.birthDate.None? ==>
      Violation(BirthDateKey, BirthDateNull) in Violations(dto, today, age)
      && Violation(BirthDateKey, AgeTooLow) in Violations(dto, today, age)
  {
  }

  /** Address and phone number: null passes, a blank value is reported. */
  lemma OptionalFieldsRule(dto: UserRequestDto, today: Date, age: int)
    requires ValidDate(today)
    ensures dto.address.None? ==> forall v :: v in Violations(dto, today, age) ==> v.path != AddressKey
    ensures dto.address.Some? ==>
      (Violation(AddressKey, FieldBlank) in Violations(dto, today, age) <==> !HasVisibleChar(dto.address.value))
    ensures dto.phoneNumber.None? ==> forall v :: v in Violations(dto, today, age) ==> v.path != PhoneNumberKey
    ensures dto.phoneNumber.Some? ==>
      (Violation(PhoneNumberKey, FieldBlank) in Violations(dto, today, age) <==> !HasVisibleChar(dto.phoneNumber.value))
  {
    var required := RequiredViolations(dto, today, age);
    var address := Rule(NullOrNotBlankValidation.IsValid(dto.address), AddressKey, FieldBlank);
    var phone := Rule(NullOrNotBlankValidation.IsValid(dto.phoneNumber), PhoneNumberKey, FieldBlank);
    assert AddressKey !in {FirstNameKey, LastNameKey, EmailKey, BirthDateKey};
    assert PhoneNumberKey !in {FirstNameKey, LastNameKey, EmailKey, BirthDateKey};
    assert AddressKey != PhoneNumberKey;
    assert forall v :: v in required ==> v.path != AddressKey && v.path != PhoneNumberKey;
    assert forall v :: v in Violations(dto, today, age) <==> v in required || v in address || v in phone;
  }

  /** The request with every field null but an empty address and phone number. */
  const EmptyRequest: UserRequestDto := UserRequestDto(None, None, None, None, Some(""), Some(""))

  /** The violations the empty request yields, in rule order. */
  const EmptyRequestList: seq<Violation> := [
    Violation(FirstNameKey, FirstNameNull), Violation(FirstNameKey, FirstNameEmpty),
    Violation(LastNameKey, LastNameNull), Violation(LastNameKey, LastNameEmpty),
    Violation(EmailKey, EmailNull), Violation(EmailKey, EmailEmpty),
    Violation(EmailKey, EmailFormat), Violation(BirthDateKey, BirthDateNull),
    Violation(BirthDateKey, AgeTooLow), Violation(AddressKey, FieldBlank),
    Violation(PhoneNumberKey, FieldBlank)]

  /** It yields eleven violations, one per annotation it breaks, in rule
      order: both rules of each required name, all three of the email, both
      of the birth date, and the blank rule of address and phone number. */
  lemma EmptyRequestViolations(today: Date, age: int)
    requires ValidDate(today)
    ensures Violations(EmptyRequest, today, age) == EmptyRequestList
  {
    var first := NameViolations(None, FirstNameKey, FirstNameNull, FirstNameEmpty);
    var last := NameViolations(None, LastNameKey, LastNameNull, LastNameEmpty);
    var email := EmailViolations(None);
    var birth := BirthDateViolations(None, today, age);
    var address := Rule(NullOrNotBlankValidation.IsValid(Some("")), AddressKey, FieldBlank);
    var phone := Rule(NullOrNotBlankValidation.IsValid(Some("")), PhoneNumberKey, FieldBlank);
    NameGroupExact(None, FirstNameKey, FirstNameNull, FirstNameEmpty);
    NameGroupExact(None, LastNameKey, LastNameNull, LastNameEmpty);
    EmailGroupExact(None);
    BirthDateGroupExact(None, today, age);
    assert address == [Violation(AddressKey, FieldBlank)] && phone == [Violation(PhoneNumberKey, FieldBlank)];
    assert Violations(EmptyRequest, today, age) == first + last + email + birth + address + phone;
  }

  /** The same list read as messages: eleven of them, address and phone number
      sharing the blank-field message. */
  lemma EmptyRequestReportsEleven(today: Date, age: int)
    requires ValidDate(today)
    ensures |Violations(EmptyRequest, today, age)| == 11
    ensures Messages(Violations(EmptyRequest, today, age)) ==
      [FirstNameNull, FirstNameEmpty, LastNameNull, LastNameEmpty, EmailNull,
       EmailEmpty, EmailFormat, BirthDateNull, AgeTooLow, FieldBlank, FieldBlank]
  {
    EmptyRequestViolations(today, age);
    EmptyRequestMessages();
  }

  /** The messages of that list, in order. */
  lemma EmptyRequestMessages()
    ensures Messages(EmptyRequestList) ==
      [FirstNameNull, FirstNameEmpty, LastNameNull, LastNameEmpty, EmailNull,
       EmailEmpty, EmailFormat, BirthDateNull, AgeTooLow, FieldBlank, FieldBlank]
  {
  }

  /** The sample request of the controller tests. */
  const SampleRequest: UserRequestDto := UserRequestDto(
    Some("FirstName"), Some("LastName"), Some("email@gmail.com"),
    Some(Date(1995, 1, 1)), Some("Address"), Some("+380"))

  /** It passes every rule whenever the person born on 1 January 1995 is at
      least `age` years old today. */
  lemma SampleRequestPasses(today: Date, age: int)
    requires ValidDate(today) && DateValidator.AgeInYears(Date(1995, 1, 1), today) >= age
    ensures Violations(SampleRequest, today, age) == []
  {
    assert Passes(SampleRequest, today, age) by {
      assert EmailValidator.MatchesAt("email@gmail.com", 5, 11);
      assert !IsTrimmable("FirstName"[0]) && !IsTrimmable("LastName"[0]);
      assert !IsTrimmable("email@gmail.com"[0]) && !IsTrimmable("Address"[0]);
      assert !IsTrimmable("+380"[0]);
      assert ValidDate(Date(1995, 1, 1));
    }
    NoViolationsIffPasses(SampleRequest, today, age);
  }
}
