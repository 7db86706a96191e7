/**
 * A client of the service: the life cycle of one user, with the outcomes
 * that the service's contracts alone determine.
 */
module ServiceScenarios {
  import opened Wrappers
  import opened Entity
  import opened Dto
  import opened Repository
  import opened Service

  method UserLifecycle() {
    var repository := new UserRepository();
    var service := new UserService(repository);

    var a := CreateUserDto("a1", "Ann", "Lee", None, Some(Female), 30, None, "a@x.com", None);
    var created := service.Create(a);
    assert created.Success?;
    var id := created.value.id;
    assert repository.rows[0].id == id;
    FullNameOfPlainNames("Ann", "Lee");
    assert created.value.fullName == "Ann Lee";
    assert created.value.initials == "AL";
    assert created.value.status == Active;

    // the same email with a new login
    var b := a.(login := "b1");
    assert Matches(repository.rows[0], ByEmail("a@x.com"));
    var duplicate := service.Create(b);
    assert duplicate == Failure(Conflict(EmailField));

    // an out-of-range age leaves the stored age as it was
    var tooOld := UpdateUserDto(None, None, None, None, None, Some(200), None, None, None, None);
    LookupByUniqueId(repository.rows, 0);
    var rejected := service.Update(id, tooOld);
    assert rejected == Failure(BadRequest);
    assert repository.rows[0].age == 30;

    // re-sending one's own email is not a conflict
    var sameEmail := UpdateUserDto(None, None, None, None, None, Some(31), None, Some("a@x.com"), None, None);
    var updated := service.Update(id, sameEmail);
    assert updated.Success? && updated.value.age == 31;

    LookupByUniqueId(repository.rows, 0);
    var before := repository.rows[0].updatedAt;
    var suspended := service.UpdateStatus(id, Suspended);
    assert suspended.Success? && suspended.value.status == Suspended;
    assert suspended.value.updatedAt > before;

    var deleted := service.Delete(id);
    assert deleted.Success?;
    var missing := service.FindById(id);
    assert missing == Failure(NotFound);
    var again := service.Delete(id);
    assert again == Failure(NotFound);
  }
}
