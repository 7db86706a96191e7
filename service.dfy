/**
 * The user domain service (src/modules/users/services/user.service.ts):
 * uniqueness of email and login, the age bound, not-found mapping, and the
 * response shape with the derived `fullName` and `initials`.
 */
module Service {
  import opened Wrappers
  import opened Entity
  import opened Dto
  import opened Repository

  datatype UniqueField = EmailField | LoginField

  /** NotFoundException, ConflictException and BadRequestException. */
  datatype ServiceError = NotFound | Conflict(field: UniqueField) | BadRequest

  const MinAge := 0
  const MaxAge := 150

  /** The service's own age check, as the negation of `age < 0 || age > 150`. */
  predicate AgeInRange(age: int) {
    !(age < MinAge || age > MaxAge)
  }

  /** A request that passed validation also passes the service's age check. */
  lemma ValidRequestAgeInRange(dto: CreateUserDto, isEmail: string -> bool)
    requires ValidCreateUser(dto, isEmail)
    ensures AgeInRange(dto.age)
  {
  }

  // ---------------------------------------------------------------------
  // Response shape

  datatype UserResponse = UserResponse(
    id: UserId,
    login: string,
    firstName: string,
    lastName: string,
    middleName: Option<string>,
    fullName: string,
    initials: string,
    gender: Gender,
    age: int,
    phone: Option<string>,
    email: string,
    avatar: Option<string>,
    createdAt: Timestamp,
    updatedAt: Timestamp,
    status: UserStatus)

  /** The stored fields of a response, without the derived ones. */
  function StoredFields(r: UserResponse): User {
    User(r.id, r.login, r.firstName, r.lastName, r.middleName, r.gender, r.age,
         r.phone, r.email, r.avatar, r.status, r.createdAt, r.updatedAt)
  }

  /** The derived fields agree with the response's own names. */
  predicate DerivedFieldsCurrent(r: UserResponse) {
    r.fullName == FullName(r.firstName, r.lastName) && r.initials == Initials(r.firstName, r.lastName)
  }

  /** `mapToResponseDto`: every stored field copied, plus the derived ones. */
  function ToResponse(u: User): (r: UserResponse)
    ensures StoredFields(r) == u
    ensures DerivedFieldsCurrent(r)
  {
    UserResponse(u.id, u.login, u.firstName, u.lastName, u.middleName,
                 FullName(u.firstName, u.lastName), Initials(u.firstName, u.lastName),
                 u.gender, u.age, u.phone, u.email, u.avatar, u.createdAt, u.updatedAt, u.status)
  }

  // ---------------------------------------------------------------------
  // The invariant the service keeps on the table

  /**
   * No two rows share a non-empty email or a non-empty login. (An update
   * that sets an empty email or login skips the check; see `ChecksEmail`.)
   */
  predicate UniqueKeys(rows: seq<User>) {
    forall i, j :: 0 <= i < |rows| && 0 <= j < |rows| && i != j ==>
      && (rows[i].email != "" ==> rows[i].email != rows[j].email)
      && (rows[i].login != "" ==> rows[i].login != rows[j].login)
  }

  predicate AgesInRange(rows: seq<User>) {
    forall k :: 0 <= k < |rows| ==> AgeInRange(rows[k].age)
  }

  predicate StoreInvariant(rows: seq<User>) {
    UniqueKeys(rows) && AgesInRange(rows)
  }

  /** `updateUserDto.email && updateUserDto.email !== existingUser.email` */
  predicate ChecksEmail(current: User, patch: UpdateUserDto) {
    patch.email.Some? && patch.email.value != "" && patch.email.value != current.email
  }

  /** `updateUserDto.login && updateUserDto.login !== existingUser.login` */
  predicate ChecksLogin(current: User, patch: UpdateUserDto) {
    patch.login.Some? && patch.login.value != "" && patch.login.value != current.login
  }

  predicate EmailConflict(rows: seq<User>, current: User, patch: UpdateUserDto) {
    ChecksEmail(current, patch) && Contains(rows, ByEmail(patch.email.value))
  }

  predicate LoginConflict(rows: seq<User>, current: User, patch: UpdateUserDto) {
    ChecksLogin(current, patch) && Contains(rows, ByLogin(patch.login.value))
  }

  predicate AgeRejected(patch: UpdateUserDto) {
    patch.age.Some? && !AgeInRange(patch.age.value)
  }

  /** Appending a row whose keys are free and whose age is in range keeps the invariant. */
  lemma AppendKeepsInvariant(rows: seq<User>, u: User)
    requires StoreInvariant(rows)
    requires !Contains(rows, ByEmail(u.email)) && !Contains(rows, ByLogin(u.login))
    requires AgeInRange(u.age)
    ensures StoreInvariant(rows + [u])
  {
    var rows' := rows + [u];
    forall i, j | 0 <= i < |rows'| && 0 <= j < |rows'| && i != j
      ensures rows'[i].email != "" ==> rows'[i].email != rows'[j].email
      ensures rows'[i].login != "" ==> rows'[i].login != rows'[j].login
    {
      if i == |rows| {
        assert !Matches(rows[j], ByEmail(u.email)) && !Matches(rows[j], ByLogin(u.login));
      } else if j == |rows| {
        assert !Matches(rows[i], ByEmail(u.email)) && !Matches(rows[i], ByLogin(u.login));
      }
    }
  }

  /** An update that the service lets through keeps the invariant. */
  lemma UpdateKeepsInvariant(rows: seq<User>, k: nat, patch: UpdateUserDto, now: Timestamp)
    requires StoreInvariant(rows) && k < |rows|
    requires !EmailConflict(rows, rows[k], patch) && !LoginConflict(rows, rows[k], patch)
    requires !AgeRejected(patch)
    ensures StoreInvariant(rows[k := ApplyUpdate(rows[k], patch, now)])
  {
    var u := ApplyUpdate(rows[k], patch, now);
    var rows' := rows[k := u];
    forall i, j | 0 <= i < |rows'| && 0 <= j < |rows'| && i != j
      ensures rows'[i].email != "" ==> rows'[i].email != rows'[j].email
      ensures rows'[i].login != "" ==> rows'[i].login != rows'[j].login
    {
      var o := if i == k then j else i;
      if i == k || j == k {
        if ChecksEmail(rows[k], patch) {
          assert !Matches(rows[o], ByEmail(u.email));
        }
        if ChecksLogin(rows[k], patch) {
          assert !Matches(rows[o], ByLogin(u.login));
        }
      }
    }
  }

  /** Removing a row keeps the invariant. */
  lemma RemoveKeepsInvariant(rows: seq<User>, k: nat)
    requires StoreInvariant(rows) && k < |rows|
    ensures StoreInvariant(rows[..k] + rows[k + 1..])
  {
    var rest := rows[..k] + rows[k + 1..];
    assert forall j :: 0 <= j < |rest| ==> rest[j] == rows[if j < k then j else j + 1];
  }

  /**
   * In a table that keeps the invariant, an update that supplies a non-empty
   * email conflicts exactly when a different row already holds that email:
   * re-sending one's own email never conflicts.
   */
  lemma EmailConflictMeansOtherOwner(rows: seq<User>, k: nat, patch: UpdateUserDto)
    requires StoreInvariant(rows) && k < |rows|
    requires patch.email.Some? && patch.email.value != ""
    ensures EmailConflict(rows, rows[k], patch) <==>
      exists j :: 0 <= j < |rows| && j != k && rows[j].email == patch.email.value
  {
    var e := patch.email.value;
    if exists j :: 0 <= j < |rows| && j != k && rows[j].email == e {
      var j :| 0 <= j < |rows| && j != k && rows[j].email == e;
      assert Matches(rows[j], ByEmail(e));
    }
    if EmailConflict(rows, rows[k], patch) {
      var j :| 0 <= j < |rows| && Matches(rows[j], ByEmail(e));
      assert j != k;
    }
  }

  /** The same for logins. */
  lemma LoginConflictMeansOtherOwner(rows: seq<User>, k: nat, patch: UpdateUserDto)
    requires StoreInvariant(rows) && k < |rows|
    requires patch.login.Some? && patch.login.value != ""
    ensures LoginConflict(rows, rows[k], patch) <==>
      exists j :: 0 <= j < |rows| && j != k && rows[j].login == patch.login.value
  {
    var l := patch.login.value;
    if exists j :: 0 <= j < |rows| && j != k && rows[j].login == l {
      var j :| 0 <= j < |rows| && j != k && rows[j].login == l;
      assert Matches(rows[j], ByLogin(l));
    }
    if LoginConflict(rows, rows[k], patch) {
      var j :| 0 <= j < |rows| && Matches(rows[j], ByLogin(l));
      assert j != k;
    }
  }

  // ---------------------------------------------------------------------

  class UserService {
    const repository: UserRepository

    ghost predicate Valid()
      reads this, repository
    {
      repository.Valid() && StoreInvariant(repository.rows)
    }

    constructor (repository: UserRepository)
      requires repository.Valid() && StoreInvariant(repository.rows)
      ensures this.repository == repository && Valid()
    {
      this.repository := repository;
    }

    /**
     * Email taken: Conflict(email); else login taken: Conflict(login); else
     * age out of [0, 150]: BadRequest; each without touching the store.
     * Otherwise exactly one row is inserted and returned as a response.
     */
    method Create(dto: CreateUserDto) returns (r: Result<UserResponse, ServiceError>)
      requires Valid()
      modifies repository
      ensures Valid()
      ensures old(Contains(repository.rows, ByEmail(dto.email))) ==>
        r == Failure(Conflict(EmailField)) && unchanged(repository)
      ensures (&& !old(Contains(repository.rows, ByEmail(dto.email)))
               && old(Contains(repository.rows, ByLogin(dto.login)))) ==>
        r == Failure(Conflict(LoginField)) && unchanged(repository)
      ensures (&& !old(Contains(repository.rows, ByEmail(dto.email)))
               && !old(Contains(repository.rows, ByLogin(dto.login)))
               && !AgeInRange(dto.age)) ==>
        r == Failure(BadRequest) && unchanged(repository)
      ensures (&& !old(Contains(repository.rows, ByEmail(dto.email)))
               && !old(Contains(repository.rows, ByLogin(dto.login)))
               && AgeInRange(dto.age)) ==>
        var u := NewUser(dto, old(repository.nextId), old(repository.clock));
        && repository.rows == old(repository.rows) + [u]
        && r == Success(ToResponse(u))
    {
      var emailTaken := repository.ExistsByEmail(dto.email);
      if emailTaken {
        return Failure(Conflict(EmailField));
      }
      var loginTaken := repository.ExistsByLogin(dto.login);
      if loginTaken {
        return Failure(Conflict(LoginField));
      }
      if dto.age < 0 || dto.age > 150 {
        return Failure(BadRequest);
      }
      AppendKeepsInvariant(repository.rows, NewUser(dto, repository.nextId, repository.clock));
      var user := repository.Create(dto);
      r := Success(ToResponse(user));
    }

    /** Every row as a response, newest first. */
    method FindAll() returns (r: seq<UserResponse>)
      requires Valid()
      ensures |r| == |repository.rows|
      ensures forall k :: 0 <= k < |r| ==> r[k] == ToResponse(repository.rows[|r| - 1 - k])
      ensures forall i, j :: 0 <= i < j < |r| ==> r[i].createdAt > r[j].createdAt
    {
      var users := repository.FindAll();
      r := seq(|users|, k requires 0 <= k < |users| => ToResponse(users[k]));
    }

    method FindById(id: UserId) returns (r: Result<UserResponse, ServiceError>)
      ensures r.Failure? <==> !Contains(repository.rows, ById(id))
      ensures r.Failure? ==> r.error == NotFound
      ensures r.Success? ==> r.value.id == id && StoredFields(r.value) in repository.rows
      ensures r.Success? ==> r.value == ToResponse(Lookup(repository.rows, ById(id)).value)
    {
      var user := repository.FindById(id);
      if user.None? {
        return Failure(NotFound);
      }
      r := Success(ToResponse(user.value));
    }

    method FindByEmail(email: string) returns (r: Result<UserResponse, ServiceError>)
      ensures r.Failure? <==> !Contains(repository.rows, ByEmail(email))
      ensures r.Failure? ==> r.error == NotFound
      ensures r.Success? ==> r.value.email == email && StoredFields(r.value) in repository.rows
      ensures r.Success? ==> r.value == ToResponse(Lookup(repository.rows, ByEmail(email)).value)
    {
      var user := repository.FindByEmail(email);
      if user.None? {
        return Failure(NotFound);
      }
      r := Success(ToResponse(user.value));
    }

    method FindByLogin(login: string) returns (r: Result<UserResponse, ServiceError>)
      ensures r.Failure? <==> !Contains(repository.rows, ByLogin(login))
      ensures r.Failure? ==> r.error == NotFound
      ensures r.Success? ==> r.value.login == login && StoredFields(r.value) in repository.rows
      ensures r.Success? ==> r.value == ToResponse(Lookup(repository.rows, ByLogin(login)).value)
    {
      var user := repository.FindByLogin(login);
      if user.None? {
        return Failure(NotFound);
      }
      r := Success(ToResponse(user.value));
    }

    /**
     * Absent id: NotFound. Then, in this order: a supplied, truthy email that
     * differs from the stored one and is taken: Conflict(email); the same for
     * login: Conflict(login); a supplied age out of range: BadRequest. Each
     * failure leaves the store unchanged; otherwise only that row changes.
     */
    method Update(id: UserId, patch: UpdateUserDto) returns (r: Result<UserResponse, ServiceError>)
      requires Valid()
      modifies repository
      ensures Valid()
      ensures !old(Contains(repository.rows, ById(id))) ==>
        r == Failure(NotFound) && unchanged(repository)
      ensures old(Contains(repository.rows, ById(id))) ==>
        var k := old(IndexOf(repository.rows, ById(id))).value;
        var current := old(repository.rows)[k];
        if EmailConflict(old(repository.rows), current, patch) then
          r == Failure(Conflict(EmailField)) && unchanged(repository)
        else if LoginConflict(old(repository.rows), current, patch) then
          r == Failure(Conflict(LoginField)) && unchanged(repository)
        else if AgeRejected(patch) then
          r == Failure(BadRequest) && unchanged(repository)
        else
          && repository.rows == old(repository.rows)[k := ApplyUpdate(current, patch, old(repository.clock))]
          && r == Success(ToResponse(repository.rows[k]))
    {
      var existing := repository.FindById(id);
      if existing.None? {
        return Failure(NotFound);
      }
      var current := existing.value;
      ghost var k := IndexOf(repository.rows, ById(id)).value;
      if patch.email.Some? && patch.email.value != "" && patch.email.value != current.email {
        var taken := repository.ExistsByEmail(patch.email.value);
        if taken {
          return Failure(Conflict(EmailField));
        }
      }
      if patch.login.Some? && patch.login.value != "" && patch.login.value != current.login {
        var taken := repository.ExistsByLogin(patch.login.value);
        if taken {
          return Failure(Conflict(LoginField));
        }
      }
      if patch.age.Some? && (patch.age.value < 0 || patch.age.value > 150) {
        return Failure(BadRequest);
      }
      UpdateKeepsInvariant(repository.rows, k, patch, repository.clock);
      var updated := repository.Update(id, patch);
      if updated.None? {
        return Failure(NotFound);
      }
      r := Success(ToResponse(updated.value));
    }

    /** NotFound exactly when no row was removed. */
    method Delete(id: UserId) returns (r: Result<(), ServiceError>)
      requires Valid()
      modifies repository
      ensures Valid()
      ensures r.Failure? <==> !old(Contains(repository.rows, ById(id)))
      ensures r.Failure? ==> r.error == NotFound && unchanged(repository)
      ensures r.Success? ==>
        var k := old(IndexOf(repository.rows, ById(id))).value;
        repository.rows == old(repository.rows[..k] + repository.rows[k + 1..])
      ensures !Contains(repository.rows, ById(id))
    {
      ghost var k := IndexOf(repository.rows, ById(id));
      if k.Some? {
        RemoveKeepsInvariant(repository.rows, k.value);
      }
      var deleted := repository.Delete(id);
      if !deleted {
        return Failure(NotFound);
      }
      r := Success(());
    }

    /** Absent id: NotFound. Otherwise any status may follow any other, and
        only `status` and `updatedAt` of that row change. */
    method UpdateStatus(id: UserId, status: UserStatus) returns (r: Result<UserResponse, ServiceError>)
      requires Valid()
      modifies repository
      ensures Valid()
      ensures !old(Contains(repository.rows, ById(id))) ==>
        r == Failure(NotFound) && unchanged(repository)
      ensures old(Contains(repository.rows, ById(id))) ==>
        var k := old(IndexOf(repository.rows, ById(id))).value;
        var current := old(repository.rows)[k];
        && repository.rows == old(repository.rows)[k := current.(status := status, updatedAt := old(repository.clock))]
        && repository.rows[k].updatedAt > current.updatedAt
        && r == Success(ToResponse(repository.rows[k]))
    {
      var user := repository.FindById(id);
      if user.None? {
        return Failure(NotFound);
      }
      ghost var k := IndexOf(repository.rows, ById(id)).value;
      StatusOnlyChangesStatus(repository.rows[k], status, repository.clock);
      UpdateKeepsInvariant(repository.rows, k, StatusOnly(status), repository.clock);
      var updated := repository.Update(id, StatusOnly(status));
      if updated.None? {
        return Failure(NotFound);
      }
      r := Success(ToResponse(updated.value));
    }
  }
}
