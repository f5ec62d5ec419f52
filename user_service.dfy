/** UserServiceImpl: the mutation pipeline over the user store. The store is
    the class's own state, a map from id to row plus the next id the identity
    column hands out; the repository's derived queries are exact-match
    lookups over that map. A ghost log records every repository call in the
    order the service makes it. */
module UserService {
  import opened Common
  import opened Dates
  import opened Users
  import opened RequestRules

  /** One call on UserRepository. */
  datatype RepoCall =
    | FindByIdCall(id: int)
    | FindByEmailCall(email: string)
    | FindByPhoneNumberCall(phone: Option<string>)
    | SaveCall(row: User)
    | DeleteByIdCall(id: int)
    | FindByBirthDateBetweenCall(start: Date, end: Date)

  /** findByEmail finds a row: the email is among the stored rows' emails. */
  predicate EmailTaken(users: map<int, User>, email: string): (b: bool)
    ensures b <==> email in (set id | id in users :: users[id].email)
  {
    exists id | id in users :: users[id].email == email
  }

  /** findByPhoneNumber finds a row: the number is among the stored rows'
      phone numbers, a null argument matching a null column. */
  predicate PhoneTaken(users: map<int, User>, phone: Option<string>): (b: bool)
    ensures b <==> phone in (set id | id in users :: users[id].phoneNumber)
  {
    exists id | id in users :: users[id].phoneNumber == phone
  }

  /** No two rows share an email. */
  ghost predicate UniqueEmails(users: map<int, User>)
  {
    forall i, j :: i in users && j in users && i != j ==> users[i].email != users[j].email
  }

  /** No two rows share a phone number (null counts as a value, since the
      lookup matches it like any other). */
  ghost predicate UniquePhones(users: map<int, User>)
  {
    forall i, j :: i in users && j in users && i != j ==> users[i].phoneNumber != users[j].phoneNumber
  }

  /** The store invariant: every row sits under its own id, below the next
      id to hand out, and email and phone number are unique. */
  ghost predicate StoreInvariant(users: map<int, User>, nextId: int)
  {
    1 <= nextId
    && (forall id :: id in users ==> 1 <= id < nextId && users[id].id == id)
    && UniqueEmails(users) && UniquePhones(users)
  }

  /** Writing a row whose email and phone number were either kept from the row
      it replaces or looked up and found free keeps the store invariant. */
  lemma {:induction false} WritePreservesInvariant(users: map<int, User>, nextId: int, nextId': int, row: User)
    requires StoreInvariant(users, nextId)
    requires 1 <= row.id < nextId' && nextId <= nextId'
    requires row.id in users ==> (row.email == users[row.id].email || !EmailTaken(users, row.email))
    requires row.id in users ==> (row.phoneNumber == users[row.id].phoneNumber || !PhoneTaken(users, row.phoneNumber))
    requires row.id !in users ==> !EmailTaken(users, row.email) && !PhoneTaken(users, row.phoneNumber)
    ensures StoreInvariant(users[row.id := row], nextId')
  {
    var users' := users[row.id := row];
    forall i, j | i in users' && j in users' && i != j
      ensures users'[i].email != users'[j].email
      ensures users'[i].phoneNumber != users'[j].phoneNumber
    {
      if i == row.id {
        assert j in users && users'[j] == users[j];
      } else if j == row.id {
        assert i in users && users'[i] == users[i];
      }
    }
  }

  /** Under the invariant an email or a phone number lookup matches at most
      one row, so the single-result queries are well defined. */
  lemma LookupsMatchOneRow(users: map<int, User>, nextId: int, email: string, phone: Option<string>)
    requires StoreInvariant(users, nextId)
    ensures forall i, j :: i in users && j in users && users[i].email == email && users[j].email == email ==> i == j
    ensures forall i, j ::
      (i in users && j in users && users[i].phoneNumber == phone && users[j].phoneNumber == phone) ==> i == j
  {
  }

  /** A stored row without a phone number makes the null lookup succeed, so a
      second user without a phone number is refused as a duplicate. */
  lemma NullPhoneIsTaken(users: map<int, User>, id: int)
    requires id in users && users[id].phoneNumber.None?
    ensures PhoneTaken(users, None)
  {
  }

  /** Spring Data's inclusive Between on the birth date. */
  predicate BornBetween(u: User, start: Date, end: Date)
  {
    !IsBefore(u.birthDate, start) && !IsBefore(end, u.birthDate)
  }

  /** findByBirthDateBetween: the stored rows born in [start, end], scanning
      ids upward from `from` to `upto` (exclusive). */
  function BornBetweenFrom(users: map<int, User>, start: Date, end: Date, from: int, upto: int): (rows: seq<User>)
    requires from <= upto
    ensures forall i :: 0 <= i < |rows| ==>
      from <= rows[i].id < upto && rows[i].id in users && users[rows[i].id] == rows[i]
      && BornBetween(rows[i], start, end)
    ensures forall i, j :: 0 <= i < j < |rows| ==> rows[i].id < rows[j].id
    ensures forall id :: (from <= id < upto && id in users && users[id].id == id
      && BornBetween(users[id], start, end)) ==> users[id] in rows
    decreases upto - from
  {
    if from == upto then []
    else
      var rest := BornBetweenFrom(users, start, end, from + 1, upto);
      if from in users && users[from].id == from && BornBetween(users[from], start, end)
      then [users[from]] + rest
      else rest
  }

  /** The stream map of findByDateBetween: one projection per row, in order. */
  function ProjectAll(rows: seq<User>): (dtos: seq<UserResponseDto>)
    ensures |dtos| == |rows|
    ensures forall i :: 0 <= i < |rows| ==> dtos[i] == Project(rows[i])
  {
    if rows == [] then [] else [Project(rows[0])] + ProjectAll(rows[1..])
  }

  /** The content and the total count of a result page. */
  datatype Page = Page(content: seq<UserResponseDto>, totalElements: nat)

  /** One violation's part of the service's validateFields message. */
  function PathAndMessage(v: Violation): string
  {
    v.path + " " + MessageText(v.message) + "; "
  }

  /** Every violation's part, in iteration order. */
  function Parts(vs: seq<Violation>): (parts: seq<string>)
    ensures |parts| == |vs|
    ensures forall i :: 0 <= i < |vs| ==> parts[i] == PathAndMessage(vs[i])
  {
    seq(|vs|, i requires 0 <= i < |vs| => PathAndMessage(vs[i]))
  }

  /** The parts written one after another. */
  function Concat(parts: seq<string>): string
  {
    if parts == [] then "" else Concat(parts[..|parts| - 1]) + parts[|parts| - 1]
  }

  /** The message of the service's validateFields without its prefix. */
  function Joined(vs: seq<Violation>): string
  {
    Concat(Parts(vs))
  }

  /** Concatenation distributes over appending lists of parts. */
  lemma {:induction false} ConcatAppend(a: seq<string>, b: seq<string>)
    ensures Concat(a + b) == Concat(a) + Concat(b)
    decreases |b|
  {
    if b == [] {
      assert a + b == a;
    } else {
      var b' := b[..|b| - 1];
      assert (a + b)[..|a + b| - 1] == a + b';
      ConcatAppend(a, b');
    }
  }

  /** One more part extends a message that ends in the first parts by that
      part. */
  lemma ConcatNext(prefix: string, parts: seq<string>, i: int, message: string)
    requires 0 <= i < |parts| && message == prefix + Concat(parts[..i])
    ensures message + parts[i] == prefix + Concat(parts[..i + 1])
  {
    assert parts[..i + 1][..i] == parts[..i];
  }

  /** Every violation's part sits in the message, after the parts of those
      before it and before the parts of those after it. */
  lemma JoinedListsEach(vs: seq<Violation>, i: int)
    requires 0 <= i < |vs|
    ensures Joined(vs) == Joined(vs[..i]) + PathAndMessage(vs[i]) + Joined(vs[i + 1..])
  {
    var parts := Parts(vs);
    assert parts == Parts(vs[..i]) + [PathAndMessage(vs[i])] + Parts(vs[i + 1..]);
    ConcatAppend(Parts(vs[..i]) + [PathAndMessage(vs[i])], Parts(vs[i + 1..]));
    ConcatAppend(Parts(vs[..i]), [PathAndMessage(vs[i])]);
    assert Concat([PathAndMessage(vs[i])]) == PathAndMessage(vs[i]) by {
      assert [PathAndMessage(vs[i])][..0] == [];
    }
  }

  class UserServiceImpl {
    var users: map<int, User>
    var nextId: int
    ghost var log: seq<RepoCall>
    /** The configured minimum age the birth-date rule reads. */
    const age: int

    ghost predicate Valid()
      reads this
    {
      StoreInvariant(users, nextId)
    }

    constructor (age: int)
      ensures Valid() && users == map[] && nextId == 1 && log == [] && this.age == age
    {
      users := map[];
      nextId := 1;
      log := [];
      this.age := age;
    }

    /** findById: the projection of the stored row, or NotFound naming the id. */
    function FindById(id: int): (r: Result<UserResponseDto, ServiceError>)
      reads this
      ensures r.Success? <==> id in users
      ensures r.Success? ==> r.value == Project(users[id])
      ensures Valid() && r.Success? ==> r.value.id == id
      ensures r.Failure? ==> r.error == NotFound(UserByIdNotFound + DecimalString(id))
    {
      if id in users then Success(Project(users[id]))
      else Failure(NotFound(UserByIdNotFound + DecimalString(id)))
    }

    /** findByDateBetween: an inverted range is rejected before the store is
      asked; otherwise one projection per stored row born in the range, in id
      order, with the total count. */
    function FindByDateBetween(start: Date, end: Date): (r: Result<Page, ServiceError>)
      reads this
      ensures IsAfter(start, end) <==> r.Failure?
      ensures r.Failure? ==> r.error == InvalidInput(StartAfterEnd)
      ensures r.Success? ==> r.value.totalElements == |r.value.content|
      ensures r.Success? ==> forall i :: 0 <= i < |r.value.content| ==>
        r.value.content[i].id in users && r.value.content[i] == Project(users[r.value.content[i].id])
        && BornBetween(users[r.value.content[i].id], start, end)
      ensures r.Success? ==> forall i, j :: 0 <= i < j < |r.value.content| ==>
        r.value.content[i].id < r.value.content[j].id
      ensures r.Success? && Valid() ==> forall id :: id in users && BornBetween(users[id], start, end) ==>
        Project(users[id]) in r.value.content
    {
      if IsAfter(start, end) then Failure(InvalidInput(StartAfterEnd))
      else
        var rows := BornBetweenFrom(users, start, end, 1, if nextId < 1 then 1 else nextId);
        var content := ProjectAll(rows);
        Success(Page(content, |content|))
    }

    /** checkEmailUnique. */
    method CheckEmailUnique(email: string) returns (failure: Option<ServiceError>)
      modifies `log
      ensures log == old(log) + [FindByEmailCall(email)]
      ensures failure == if EmailTaken(users, email) then Some(Conflict(UserByEmailExist + email)) else None
    {
      log := log + [FindByEmailCall(email)];
      if EmailTaken(users, email) {
        return Some(Conflict(UserByEmailExist + email));
      }
      return None;
    }

    /** checkPhoneUnique: a null phone number is looked up like any other. */
    method CheckPhoneUnique(phone: Option<string>) returns (failure: Option<ServiceError>)
      modifies `log
      ensures log == old(log) + [FindByPhoneNumberCall(phone)]
      ensures failure ==
        if PhoneTaken(users, phone) then Some(Conflict(UserByPhoneNumberExist + NullableText(phone))) else None
    {
      log := log + [FindByPhoneNumberCall(phone)];
      if PhoneTaken(users, phone) {
        return Some(Conflict(UserByPhoneNumberExist + NullableText(phone)));
      }
      return None;
    }

    /** The private validateFields: run the rules on the candidate and, when
        any fails, report InvalidInput with every violation in the message. */
    method ValidateFields(candidate: UserRequestDto, today: Date) returns (failure: Option<ServiceError>)
      requires ValidDate(today)
      ensures failure.None? <==> Passes(candidate, today, age)
      ensures failure.Some? ==>
        failure.value == InvalidInput(NotCorrectFieldName + Joined(Violations(candidate, today, age)))
    {
      var violations := Violations(candidate, today, age);
      NoViolationsIffPasses(candidate, today, age);
      if violations == [] {
        return None;
      }
      var errorMessage := BuildMessage(NotCorrectFieldName, violations);
      return Some(InvalidInput(errorMessage));
    }

    /** The StringBuilder loop of validateFields: the prefix, then every
        violation's part in iteration order. */
    static method BuildMessage(prefix: string, violations: seq<Violation>) returns (errorMessage: string)
      ensures errorMessage == prefix + Joined(violations)
    {
      ghost var parts := Parts(violations);
      errorMessage := prefix;
      for i := 0 to |violations|
        invariant errorMessage == prefix + Concat(parts[..i])
      {
        ConcatNext(prefix, parts, i, errorMessage);
        errorMessage := errorMessage + PathAndMessage(violations[i]);
      }
      assert parts[..|violations|] == parts;
    }

    /** The repository's save of a row: insert or overwrite under its id. */
    method Persist(row: User)
      modifies `users, `log
      ensures users == old(users)[row.id := row]
      ensures log == old(log) + [SaveCall(row)]
    {
      users := users[row.id := row];
      log := log + [SaveCall(row)];
    }

    /** save: a request that passed the @Valid gate is stored under a fresh id
        once its email and then its phone number are found free. */
    method Save(dto: UserRequestDto, ghost today: Date) returns (r: Result<UserResponseDto, ServiceError>)
      requires Valid() && ValidDate(today) && Passes(dto, today, age)
      modifies this
      ensures Valid()
      ensures EmailTaken(old(users), dto.email.value) ==>
        r == Failure(Conflict(UserByEmailExist + dto.email.value))
        && log == old(log) + [FindByEmailCall(dto.email.value)]
      ensures !EmailTaken(old(users), dto.email.value) && PhoneTaken(old(users), dto.phoneNumber) ==>
        r == Failure(Conflict(UserByPhoneNumberExist + NullableText(dto.phoneNumber)))
        && log == old(log) + [FindByEmailCall(dto.email.value), FindByPhoneNumberCall(dto.phoneNumber)]
      ensures r.Failure? ==> users == old(users) && nextId == old(nextId)
      ensures !EmailTaken(old(users), dto.email.value) && !PhoneTaken(old(users), dto.phoneNumber) ==>
        var row := FromRequestDto(old(nextId), dto);
        r == Success(Project(row))
        && users == old(users)[row.id := row] && old(nextId) !in old(users) && nextId == old(nextId) + 1
        && log == old(log) + [FindByEmailCall(dto.email.value), FindByPhoneNumberCall(dto.phoneNumber), SaveCall(row)]
      ensures r.Success? ==> FindById(r.value.id) == r
    {
      r := CheckAndInsert(dto);
    }

    /** The body of save once the gate has let the request through: the email
        lookup, then the phone number lookup, then the insert. */
    method CheckAndInsert(dto: UserRequestDto) returns (r: Result<UserResponseDto, ServiceError>)
      requires Valid() && HasRequiredFields(dto)
      modifies this
      ensures Valid()
      ensures EmailTaken(old(users), dto.email.value) ==>
        r == Failure(Conflict(UserByEmailExist + dto.email.value))
        && log == old(log) + [FindByEmailCall(dto.email.value)]
      ensures !EmailTaken(old(users), dto.email.value) && PhoneTaken(old(users), dto.phoneNumber) ==>
        r == Failure(Conflict(UserByPhoneNumberExist + NullableText(dto.phoneNumber)))
        && log == old(log) + [FindByEmailCall(dto.email.value), FindByPhoneNumberCall(dto.phoneNumber)]
      ensures r.Failure? ==> users == old(users) && nextId == old(nextId)
      ensures !EmailTaken(old(users), dto.email.value) && !PhoneTaken(old(users), dto.phoneNumber) ==>
        var row := FromRequestDto(old(nextId), dto);
        r == Success(Project(row))
        && users == old(users)[row.id := row] && old(nextId) !in old(users) && nextId == old(nextId) + 1
        && log == old(log) + [FindByEmailCall(dto.email.value), FindByPhoneNumberCall(dto.phoneNumber), SaveCall(row)]
      ensures r.Success? ==> FindById(r.value.id) == r
    {
      var failure := CheckEmailUnique(dto.email.value);
      if failure.Some? {
        return Failure(failure.value);
      }
      failure := CheckPhoneUnique(dto.phoneNumber);
      if failure.Some? {
        return Failure(failure.value);
      }
      var row := FromRequestDto(nextId, dto);
      WritePreservesInvariant(users, nextId, nextId + 1, row);
      Persist(row);
      nextId := nextId + 1;
      r := Success(Project(row));
      assert row.id in users && users[row.id] == row;
    }

    /** deleteById: the row goes, if there was one; nothing else changes and
        nothing is reported. */
    method DeleteById(id: int)
      requires Valid()
      modifies `users, `log
      ensures Valid()
      ensures users == old(users) - {id}
      ensures forall other :: other in old(users) && other != id ==> other in users && users[other] == old(users)[other]
      ensures log == old(log) + [DeleteByIdCall(id)]
    {
      users := users - {id};
      log := log + [DeleteByIdCall(id)];
    }

    /** The tail both updates share: the email is looked up only when it
        changes, then the phone number only when it changes (a stored null
        phone number throws on `equals`); on success the candidate is written
        under the id. */
    method CheckAndWrite(id: int, candidate: UserRequestDto) returns (r: Result<UserResponseDto, ServiceError>)
      requires Valid() && id in users && HasRequiredFields(candidate)
      modifies `users, `log
      ensures Valid()
      ensures r.Failure? ==> users == old(users)
      ensures
        var stored := old(users)[id];
        var email := candidate.email.value;
        var emailCalls := if stored.email != email then [FindByEmailCall(email)] else [];
        var phoneCalls := if stored.phoneNumber.Some? && stored.phoneNumber != candidate.phoneNumber
                          then [FindByPhoneNumberCall(candidate.phoneNumber)] else [];
        if stored.email != email && EmailTaken(old(users), email) then
          r == Failure(Conflict(UserByEmailExist + email)) && log == old(log) + emailCalls
        else if stored.phoneNumber.None? then
          r == Failure(NullDereference) && log == old(log) + emailCalls
        else if stored.phoneNumber != candidate.phoneNumber && PhoneTaken(old(users), candidate.phoneNumber) then
          r == Failure(Conflict(UserByPhoneNumberExist + NullableText(candidate.phoneNumber)))
          && log == old(log) + emailCalls + phoneCalls
        else
          var row := FromRequestDto(id, candidate);
          r == Success(Project(row)) && users == old(users)[id := row]
          && log == old(log) + emailCalls + phoneCalls + [SaveCall(row)]
    {
      var user := users[id];
      var failure: Option<ServiceError>;
      if user.email != candidate.email.value {
        failure := CheckEmailUnique(candidate.email.value);
        if failure.Some? {
          return Failure(failure.value);
        }
      }
      if user.phoneNumber.None? {
        return Failure(NullDereference);
      }
      if user.phoneNumber != candidate.phoneNumber {
        failure := CheckPhoneUnique(candidate.phoneNumber);
        if failure.Some? {
          return Failure(failure.value);
        }
      }
      var row := FromRequestDto(id, candidate);
      WritePreservesInvariant(users, nextId, nextId, row);
      Persist(row);
      r := Success(Project(row));
    }

    /** updateFullUser: NotFound first, then the shared lookups and write of
        the request itself. */
    method UpdateFullUser(id: int, dto: UserRequestDto, ghost today: Date) returns (r: Result<UserResponseDto, ServiceError>)
      requires Valid() && ValidDate(today) && Passes(dto, today, age)
      modifies this
      ensures Valid() && nextId == old(nextId)
      ensures r.Failure? ==> users == old(users)
      ensures id !in old(users) ==>
        r == Failure(NotFound(UserByIdNotFound + DecimalString(id))) && log == old(log) + [FindByIdCall(id)]
      ensures id in old(users) ==>
        var stored := old(users)[id];
        var email := dto.email.value;
        var emailCalls := if stored.email != email then [FindByEmailCall(email)] else [];
        var phoneCalls := if stored.phoneNumber.Some? && stored.phoneNumber != dto.phoneNumber
                          then [FindByPhoneNumberCall(dto.phoneNumber)] else [];
        if stored.email != email && EmailTaken(old(users), email) then
          r == Failure(Conflict(UserByEmailExist + email))
          && log == old(log) + [FindByIdCall(id)] + emailCalls
        else if stored.phoneNumber.None? then
          r == Failure(NullDereference) && log == old(log) + [FindByIdCall(id)] + emailCalls
        else if stored.phoneNumber != dto.phoneNumber && PhoneTaken(old(users), dto.phoneNumber) then
          r == Failure(Conflict(UserByPhoneNumberExist + NullableText(dto.phoneNumber)))
          && log == old(log) + [FindByIdCall(id)] + emailCalls + phoneCalls
        else
          var row := FromRequestDto(id, dto);
          r == Success(Project(row)) && users == old(users)[id := row]
          && log == old(log) + [FindByIdCall(id)] + emailCalls + phoneCalls + [SaveCall(row)]
    {
      NoViolationsIffPasses(dto, today, age);
      log := log + [FindByIdCall(id)];
      if id !in users {
        return Failure(NotFound(UserByIdNotFound + DecimalString(id)));
      }
      r := CheckAndWrite(id, dto);
    }

    /** updatePartUser: NotFound first; the row's request form is overlaid with
        the body and validated before any uniqueness lookup; then the shared
        lookups and write of the merged request under the original id. */
    method UpdatePartUser(id: int, overrides: map<string, FieldValue>, today: Date) returns (r: Result<UserResponseDto, ServiceError>)
      requires Valid() && ValidDate(today) && IsFieldOverrides(overrides)
      modifies this
      ensures Valid() && nextId == old(nextId)
      ensures r.Failure? ==> users == old(users)
      ensures id !in old(users) ==>
        r == Failure(NotFound(UserByIdNotFound + DecimalString(id))) && log == old(log) + [FindByIdCall(id)]
      ensures id in old(users) ==>
        var stored := old(users)[id];
        var merged := Overlay(ToRequestDto(stored), overrides);
        !Passes(merged, today, age) ==>
          r == Failure(InvalidInput(NotCorrectFieldName + Joined(Violations(merged, today, age))))
          && log == old(log) + [FindByIdCall(id)]
      ensures id in old(users) ==>
        var stored := old(users)[id];
        var merged := Overlay(ToRequestDto(stored), overrides);
        Passes(merged, today, age) ==>
          var email := merged.email.value;
          var emailCalls := if stored.email != email then [FindByEmailCall(email)] else [];
          var phoneCalls := if stored.phoneNumber.Some? && stored.phoneNumber != merged.phoneNumber
                            then [FindByPhoneNumberCall(merged.phoneNumber)] else [];
          if stored.email != email && EmailTaken(old(users), email) then
            r == Failure(Conflict(UserByEmailExist + email))
            && log == old(log) + [FindByIdCall(id)] + emailCalls
          else if stored.phoneNumber.None? then
            r == Failure(NullDereference) && log == old(log) + [FindByIdCall(id)] + emailCalls
          else if stored.phoneNumber != merged.phoneNumber && PhoneTaken(old(users), merged.phoneNumber) then
            r == Failure(Conflict(UserByPhoneNumberExist + NullableText(merged.phoneNumber)))
            && log == old(log) + [FindByIdCall(id)] + emailCalls + phoneCalls
          else
            var row := FromRequestDto(id, merged);
            r == Success(Project(row)) && users == old(users)[id := row]
            && log == old(log) + [FindByIdCall(id)] + emailCalls + phoneCalls + [SaveCall(row)]
    {
      log := log + [FindByIdCall(id)];
      if id !in users {
        return Failure(NotFound(UserByIdNotFound + DecimalString(id)));
      }
      var updatedFields := Overlay(ToRequestDto(users[id]), overrides);
      var failure := ValidateFields(updatedFields, today);
      if failure.Some? {
        return Failure(failure.value);
      }
      NoViolationsIffPasses(updatedFields, today, age);
      r := CheckAndWrite(id, updatedFields);
    }
  }
}
