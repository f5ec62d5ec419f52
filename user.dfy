/** The persisted User entity, the request and response DTOs, and the explicit
    field copies that stand in for the reflective object mapper. */
module Users {
  import opened Common
  import opened Dates

  /** A stored row. The non-nullable columns (first name, last name, email,
      birth date) are plain values; address and phone number may be null. The
      id is the one the store generated on insert. */
  datatype User = User(
    id: int,
    firstName: string,
    lastName: string,
    email: string,
    birthDate: Date,
    address: Option<string>,
    phoneNumber: Option<string>)

  /** A create/update request: every field may be null until validated. */
  datatype UserRequestDto = UserRequestDto(
    firstName: Option<string>,
    lastName: Option<string>,
    email: Option<string>,
    birthDate: Option<Date>,
    address: Option<string>,
    phoneNumber: Option<string>)

  /** The externally visible projection of a stored user. */
  datatype UserResponseDto = UserResponseDto(
    id: int,
    firstName: string,
    lastName: string,
    email: string,
    birthDate: Date,
    address: Option<string>,
    phoneNumber: Option<string>)

  /** User to UserResponseDto: all seven fields copied. */
  function Project(u: User): (r: UserResponseDto)
    ensures r.id == u.id && r.firstName == u.firstName && r.lastName == u.lastName
    ensures r.email == u.email && r.birthDate == u.birthDate
    ensures r.address == u.address && r.phoneNumber == u.phoneNumber
  {
    UserResponseDto(u.id, u.firstName, u.lastName, u.email, u.birthDate, u.address, u.phoneNumber)
  }

  /** User to UserRequestDto, the editable form a partial update starts from. */
  function ToRequestDto(u: User): (r: UserRequestDto)
    ensures HasRequiredFields(r)
    ensures r.firstName == Some(u.firstName) && r.lastName == Some(u.lastName)
    ensures r.email == Some(u.email) && r.birthDate == Some(u.birthDate)
    ensures r.address == u.address && r.phoneNumber == u.phoneNumber
  {
    UserRequestDto(Some(u.firstName), Some(u.lastName), Some(u.email), Some(u.birthDate),
                   u.address, u.phoneNumber)
  }

  /** The request fields a row cannot hold as null are all present. */
  predicate HasRequiredFields(dto: UserRequestDto)
  {
    dto.firstName.Some? && dto.lastName.Some? && dto.email.Some? && dto.birthDate.Some?
  }

  /** UserRequestDto to User under the given id: the six fields copied. */
  function FromRequestDto(id: int, dto: UserRequestDto): (u: User)
    requires HasRequiredFields(dto)
    ensures u.id == id
    ensures ToRequestDto(u) == dto
  {
    User(id, dto.firstName.value, dto.lastName.value, dto.email.value, dto.birthDate.value,
         dto.address, dto.phoneNumber)
  }

  /** The two copies are inverse: a row survives the trip through its request
      form, and a complete request survives the trip through a row. */
  lemma RequestDtoRoundTrip(u: User, id: int, dto: UserRequestDto)
    ensures HasRequiredFields(ToRequestDto(u)) && FromRequestDto(u.id, ToRequestDto(u)) == u
    ensures HasRequiredFields(dto) ==> ToRequestDto(FromRequestDto(id, dto)) == dto
    ensures HasRequiredFields(dto) ==> FromRequestDto(id, dto).id == id
  {
  }

  /** A value in a partial-update body. */
  datatype FieldValue = Text(text: Option<string>) | Day(date: Option<Date>)

  const FirstNameKey: string := "firstName"
  const LastNameKey: string := "lastName"
  const EmailKey: string := "email"
  const BirthDateKey: string := "birthDate"
  const AddressKey: string := "address"
  const PhoneNumberKey: string := "phoneNumber"

  const FieldNames: set<string> :=
    {FirstNameKey, LastNameKey, EmailKey, BirthDateKey, AddressKey, PhoneNumberKey}

  /** The partial-update bodies this model covers: every key is one of the
      DTO's own property names, and each value has that property's type. */
  predicate IsFieldOverrides(overrides: map<string, FieldValue>)
  {
    overrides.Keys <= FieldNames
    && (forall key :: key in overrides && key != BirthDateKey ==> overrides[key].Text?)
    && (BirthDateKey in overrides ==> overrides[BirthDateKey].Day?)
  }

  function TextOr(overrides: map<string, FieldValue>, key: string, current: Option<string>): Option<string>
  {
    if key in overrides && overrides[key].Text? then overrides[key].text else current
  }

  /** The overlay: every named field takes the override's value, an explicit
      null included; every other field keeps its current value. */
  function Overlay(dto: UserRequestDto, overrides: map<string, FieldValue>): (r: UserRequestDto)
    requires IsFieldOverrides(overrides)
    ensures r.firstName == if FirstNameKey in overrides then overrides[FirstNameKey].text else dto.firstName
    ensures r.lastName == if LastNameKey in overrides then overrides[LastNameKey].text else dto.lastName
    ensures r.email == if EmailKey in overrides then overrides[EmailKey].text else dto.email
    ensures r.birthDate == if BirthDateKey in overrides then overrides[BirthDateKey].date else dto.birthDate
    ensures r.address == if AddressKey in overrides then overrides[AddressKey].text else dto.address
    ensures r.phoneNumber == if PhoneNumberKey in overrides then overrides[PhoneNumberKey].text else dto.phoneNumber
  {
    UserRequestDto(
      TextOr(overrides, FirstNameKey, dto.firstName),
      TextOr(overrides, LastNameKey, dto.lastName),
      TextOr(overrides, EmailKey, dto.email),
      if BirthDateKey in overrides then overrides[BirthDateKey].date else dto.birthDate,
      TextOr(overrides, AddressKey, dto.address),
      TextOr(overrides, PhoneNumberKey, dto.phoneNumber))
  }

  /** An empty body changes nothing, and applying the same body twice is the
      same as applying it once. */
  lemma OverlayIdentityAndIdempotent(dto: UserRequestDto, overrides: map<string, FieldValue>)
    requires IsFieldOverrides(overrides)
    ensures Overlay(dto, map[]) == dto
    ensures Overlay(Overlay(dto, overrides), overrides) == Overlay(dto, overrides)
  {
  }

  /** Overriding only the first name keeps every other field of the row. */
  lemma OverlayFirstNameOnly(u: User, name: Option<string>)
    ensures IsFieldOverrides(map[FirstNameKey := Text(name)])
    ensures var r := Overlay(ToRequestDto(u), map[FirstNameKey := Text(name)]);
      r == ToRequestDto(u).(firstName := name)
  {
  }
}
