/**
 * The user store (src/modules/users/repositories/user.repository.ts): the
 * `users` table as a sequence of rows in insertion order, with a logical
 * clock for `createdAt`/`updatedAt` and a counter for generated ids. The
 * `findOne`/`count` queries are scans of that sequence.
 */
module Repository {
  import opened Wrappers
  import opened Entity
  import opened Dto

  /** A `where` clause on one column. */
  datatype Key = ById(id: UserId) | ByEmail(email: string) | ByLogin(login: string)

  predicate Matches(u: User, key: Key) {
    match key
    case ById(id) => u.id == id
    case ByEmail(email) => u.email == email
    case ByLogin(login) => u.login == login
  }

  /** Some row satisfies the where clause. */
  predicate Contains(rows: seq<User>, key: Key) {
    exists k :: 0 <= k < |rows| && Matches(rows[k], key)
  }

  /** Position of the first row that satisfies the where clause. */
  function IndexOf(rows: seq<User>, key: Key): (r: Option<nat>)
    ensures r.None? <==> !Contains(rows, key)
    ensures r.Some? ==> r.value < |rows| && Matches(rows[r.value], key)
    ensures r.Some? ==> forall k :: 0 <= k < r.value ==> !Matches(rows[k], key)
  {
    if |rows| == 0 then None
    else if Matches(rows[0], key) then Some(0)
    else
      match IndexOf(rows[1..], key)
      case None =>
        assert forall k :: 1 <= k < |rows| ==> rows[k] == rows[1..][k - 1];
        None
      case Some(k) => Some(k + 1)
  }

  /** `findOne({ where })`: the matching row, or null when there is none. */
  function Lookup(rows: seq<User>, key: Key): (r: Option<User>)
    ensures r.None? <==> !Contains(rows, key)
    ensures r.Some? ==> r.value in rows && Matches(r.value, key)
  {
    match IndexOf(rows, key)
    case None => None
    case Some(k) => Some(rows[k])
  }

  /** `count({ where })` */
  function CountWhere(rows: seq<User>, key: Key): (n: nat)
    ensures n <= |rows|
  {
    if |rows| == 0 then 0
    else CountWhere(rows[..|rows| - 1], key) + (if Matches(rows[|rows| - 1], key) then 1 else 0)
  }

  /** A positive count is the same as the existence of a matching row. */
  lemma {:induction false} CountPositiveIff(rows: seq<User>, key: Key)
    ensures CountWhere(rows, key) > 0 <==> Contains(rows, key)
  {
    if |rows| > 0 {
      var init := rows[..|rows| - 1];
      CountPositiveIff(init, key);
      assert forall k :: 0 <= k < |init| ==> init[k] == rows[k];
      if Contains(rows, key) && !Matches(rows[|rows| - 1], key) {
        var k :| 0 <= k < |rows| && Matches(rows[k], key);
        assert Matches(init[k], key);
      }
    }
  }

  predicate IdsUnique(rows: seq<User>) {
    forall i, j :: 0 <= i < j < |rows| ==> rows[i].id != rows[j].id
  }

  predicate CreatedAscending(rows: seq<User>) {
    forall i, j :: 0 <= i < j < |rows| ==> rows[i].createdAt < rows[j].createdAt
  }

  predicate CreatedDescending(rows: seq<User>) {
    forall i, j :: 0 <= i < j < |rows| ==> rows[i].createdAt > rows[j].createdAt
  }

  /** With unique ids, the row found by id is the only row with that id. */
  lemma LookupByUniqueId(rows: seq<User>, k: nat)
    requires IdsUnique(rows) && k < |rows|
    ensures IndexOf(rows, ById(rows[k].id)) == Some(k)
    ensures Lookup(rows, ById(rows[k].id)) == Some(rows[k])
  {
    var r := IndexOf(rows, ById(rows[k].id));
    assert Matches(rows[k], ById(rows[k].id));
  }

  /** `repository.create(dto)` then `save`: the DTO's fields, the column
      defaults for what it lacks, a generated id and both timestamps. */
  function NewUser(dto: CreateUserDto, id: UserId, now: Timestamp): (u: User)
    ensures u.id == id && u.createdAt == now && u.updatedAt == now
    ensures u.status == DefaultStatus
    ensures dto.gender.None? ==> u.gender == DefaultGender
  {
    User(id, dto.login, dto.firstName, dto.lastName, dto.middleName,
         dto.gender.GetOr(DefaultGender), dto.age, dto.phone, dto.email,
         dto.avatar, DefaultStatus, now, now)
  }

  /** A new row carries the request's values and the defaults. */
  lemma NewUserFields(dto: CreateUserDto, id: UserId, now: Timestamp)
    ensures var u := NewUser(dto, id, now);
      && u.id == id && u.login == dto.login && u.email == dto.email
      && u.firstName == dto.firstName && u.lastName == dto.lastName
      && u.middleName == dto.middleName && u.age == dto.age
      && u.phone == dto.phone && u.avatar == dto.avatar
      && (dto.gender.None? ==> u.gender == Male)
      && (dto.gender.Some? ==> u.gender == dto.gender.value)
      && u.status == Active
      && u.createdAt == now == u.updatedAt
  {
  }

  /** A validated request can be stored without overflowing a column. */
  lemma ValidCreateUserFits(dto: CreateUserDto, isEmail: string -> bool, id: UserId, now: Timestamp)
    requires ValidCreateUser(dto, isEmail) && |dto.email| <= EmailWidth
    ensures FitsColumns(NewUser(dto, id, now))
  {
    ValidCreateUserFitsWidths(dto, isEmail);
  }

  /** `update(id, dto)`: the properties the update defines overwrite the
      row's; `updatedAt` is refreshed. */
  function ApplyUpdate(u: User, patch: UpdateUserDto, now: Timestamp): (r: User)
    ensures r.id == u.id && r.createdAt == u.createdAt && r.updatedAt == now
    // A supplied property is stored; an undefined one keeps the row's value.
    ensures r.login == (if patch.login.Some? then patch.login.value else u.login)
    ensures r.firstName == (if patch.firstName.Some? then patch.firstName.value else u.firstName)
    ensures r.lastName == (if patch.lastName.Some? then patch.lastName.value else u.lastName)
    ensures r.middleName == (if patch.middleName.Some? then patch.middleName else u.middleName)
    ensures r.gender == (if patch.gender.Some? then patch.gender.value else u.gender)
    ensures r.age == (if patch.age.Some? then patch.age.value else u.age)
    ensures r.phone == (if patch.phone.Some? then patch.phone else u.phone)
    ensures r.email == (if patch.email.Some? then patch.email.value else u.email)
    ensures r.avatar == (if patch.avatar.Some? then patch.avatar else u.avatar)
    ensures r.status == (if patch.status.Some? then patch.status.value else u.status)
    ensures patch == UpdateUserDto(None, None, None, None, None, None, None, None, None, None) ==>
      r == u.(updatedAt := now)
  {
    u.(login := patch.login.GetOr(u.login),
       firstName := patch.firstName.GetOr(u.firstName),
       lastName := patch.lastName.GetOr(u.lastName),
       middleName := if patch.middleName.Some? then patch.middleName else u.middleName,
       gender := patch.gender.GetOr(u.gender),
       age := patch.age.GetOr(u.age),
       phone := if patch.phone.Some? then patch.phone else u.phone,
       email := patch.email.GetOr(u.email),
       avatar := if patch.avatar.Some? then patch.avatar else u.avatar,
       status := patch.status.GetOr(u.status),
       updatedAt := now)
  }

  /** An update never touches the id or the creation time, and applying the
      same update again only moves `updatedAt`. */
  lemma ApplyUpdateProperties(u: User, patch: UpdateUserDto, t1: Timestamp, t2: Timestamp)
    ensures ApplyUpdate(u, patch, t1).id == u.id
    ensures ApplyUpdate(u, patch, t1).createdAt == u.createdAt
    ensures ApplyUpdate(ApplyUpdate(u, patch, t1), patch, t2) == ApplyUpdate(u, patch, t2)
  {
  }

  /** The status-only update changes the status and `updatedAt`, nothing else. */
  lemma StatusOnlyChangesStatus(u: User, status: UserStatus, now: Timestamp)
    ensures ApplyUpdate(u, StatusOnly(status), now) == u.(status := status, updatedAt := now)
  {
  }

  /** Ids are unique and below the next id to hand out; rows are in creation
      order; every timestamp is before the clock. */
  predicate TableValid(rows: seq<User>, clock: Timestamp, nextId: UserId) {
    && IdsUnique(rows)
    && CreatedAscending(rows)
    && (forall k :: 0 <= k < |rows| ==> rows[k].id < nextId)
    && (forall k :: 0 <= k < |rows| ==> rows[k].createdAt <= rows[k].updatedAt < clock)
  }

  /** Removing the row at `i` keeps the table valid and removes its id. */
  lemma RemoveAtValid(rows: seq<User>, clock: Timestamp, nextId: UserId, i: nat)
    requires TableValid(rows, clock, nextId) && i < |rows|
    ensures TableValid(rows[..i] + rows[i + 1..], clock, nextId)
    ensures !Contains(rows[..i] + rows[i + 1..], ById(rows[i].id))
  {
    var rest := rows[..i] + rows[i + 1..];
    assert forall j :: 0 <= j < |rest| ==> rest[j] == rows[if j < i then j else j + 1];
  }

  class UserRepository {
    /** The table, oldest row first. */
    var rows: seq<User>
    /** The next timestamp to hand out. */
    var clock: Timestamp
    /** The next id to hand out. */
    var nextId: UserId

    ghost predicate Valid()
      reads this
    {
      TableValid(rows, clock, nextId)
    }

    constructor ()
      ensures Valid() && rows == []
    {
      rows, clock, nextId := [], 0, 0;
    }

    /** Scan for the first row that satisfies `key`. */
    method Locate(key: Key) returns (r: Option<nat>)
      ensures r == IndexOf(rows, key)
    {
      var i := 0;
      while i < |rows|
        invariant 0 <= i <= |rows|
        invariant forall k :: 0 <= k < i ==> !Matches(rows[k], key)
      {
        if Matches(rows[i], key) {
          return Some(i);
        }
        i := i + 1;
      }
      return None;
    }

    method FindOne(key: Key) returns (u: Option<User>)
      ensures u == Lookup(rows, key)
    {
      var k := Locate(key);
      u := if k.Some? then Some(rows[k.value]) else None;
    }

    method FindById(id: UserId) returns (u: Option<User>)
      ensures u == Lookup(rows, ById(id))
    {
      u := FindOne(ById(id));
    }

    method FindByEmail(email: string) returns (u: Option<User>)
      ensures u == Lookup(rows, ByEmail(email))
    {
      u := FindOne(ByEmail(email));
    }

    method FindByLogin(login: string) returns (u: Option<User>)
      ensures u == Lookup(rows, ByLogin(login))
    {
      u := FindOne(ByLogin(login));
    }

    /** Count the rows that satisfy `key`. */
    method Count(key: Key) returns (n: nat)
      ensures n == CountWhere(rows, key)
    {
      n := 0;
      var i := 0;
      while i < |rows|
        invariant 0 <= i <= |rows|
        invariant n == CountWhere(rows[..i], key)
      {
        assert rows[..i + 1][..i] == rows[..i];
        if Matches(rows[i], key) {
          n := n + 1;
        }
        i := i + 1;
      }
      assert rows[..i] == rows;
    }

    method ExistsByEmail(email: string) returns (b: bool)
      ensures b == (CountWhere(rows, ByEmail(email)) > 0)
      ensures b <==> Contains(rows, ByEmail(email))
    {
      var n := Count(ByEmail(email));
      CountPositiveIff(rows, ByEmail(email));
      b := n > 0;
    }

    method ExistsByLogin(login: string) returns (b: bool)
      ensures b == (CountWhere(rows, ByLogin(login)) > 0)
      ensures b <==> Contains(rows, ByLogin(login))
    {
      var n := Count(ByLogin(login));
      CountPositiveIff(rows, ByLogin(login));
      b := n > 0;
    }

    /** `find({ order: { createdAt: 'DESC' } })` */
    method FindAll() returns (users: seq<User>)
      requires Valid()
      ensures |users| == |rows|
      ensures forall k :: 0 <= k < |users| ==> users[k] == rows[|rows| - 1 - k]
      ensures multiset(users) == multiset(rows)
      ensures CreatedDescending(users)
    {
      users := [];
      var i := 0;
      while i < |rows|
        invariant 0 <= i <= |rows|
        invariant |users| == i
        invariant forall k :: 0 <= k < i ==> users[k] == rows[i - 1 - k]
        invariant multiset(users) == multiset(rows[..i])
      {
        assert rows[..i + 1] == rows[..i] + [rows[i]];
        users := [rows[i]] + users;
        i := i + 1;
      }
      assert rows[..i] == rows;
    }

    method Create(dto: CreateUserDto) returns (u: User)
      requires Valid()
      modifies this
      ensures Valid()
      ensures u == NewUser(dto, old(nextId), old(clock))
      ensures forall k :: 0 <= k < |old(rows)| ==> old(rows)[k].id != u.id
      ensures rows == old(rows) + [u]
      ensures clock == old(clock) + 1
    {
      u := NewUser(dto, nextId, clock);
      rows := rows + [u];
      nextId := nextId + 1;
      clock := clock + 1;
    }

    /** Apply the update to the row with that id, then fetch it again. */
    method Update(id: UserId, patch: UpdateUserDto) returns (u: Option<User>)
      requires Valid()
      modifies this
      ensures Valid()
      ensures nextId == old(nextId)
      ensures old(IndexOf(rows, ById(id))).None? ==>
        u.None? && rows == old(rows) && clock == old(clock)
      ensures old(IndexOf(rows, ById(id))).Some? ==>
        var k := old(IndexOf(rows, ById(id))).value;
        && rows == old(rows)[k := ApplyUpdate(old(rows)[k], patch, old(clock))]
        && u == Some(rows[k])
        && clock == old(clock) + 1
    {
      var k := Locate(ById(id));
      if k.Some? {
        var i := k.value;
        rows := rows[i := ApplyUpdate(rows[i], patch, clock)];
        clock := clock + 1;
        LookupByUniqueId(rows, i);
      }
      u := FindById(id);
    }

    /** Remove the row with that id; report whether one was removed. */
    method Delete(id: UserId) returns (removed: bool)
      requires Valid()
      modifies this`rows
      ensures Valid()
      ensures removed <==> old(Contains(rows, ById(id)))
      ensures !removed ==> rows == old(rows)
      ensures removed ==>
        var k := old(IndexOf(rows, ById(id))).value;
        rows == old(rows[..k] + rows[k + 1..])
      ensures !Contains(rows, ById(id))
    {
      var k := Locate(ById(id));
      removed := k.Some?;
      if removed {
        var i := k.value;
        RemoveAtValid(rows, clock, nextId, i);
        rows := rows[..i] + rows[i + 1..];
      }
    }
  }
}
