/** UserMapper: field-for-field translation between the stored entity and the domain User. */
module Mapping {
  import opened Wrappers
  import opened Emails
  import opened Users
  import Strings

  /** The persistence entity: plain fields, every one of them nullable, the email as a string. */
  datatype UserEntity = UserEntity(id: Option<int>, name: Option<string>, email: Option<string>, age: Option<int>, createdAt: Option<Timestamp>)

  /**
    * toDomain: null maps to null; otherwise the Email is built first, then the User, so an entity
    * that breaks the Email or User rules fails with that constructor's exception.
    */
  function ToDomain(entity: Option<UserEntity>): (r: Result<Option<User>>)
    ensures entity.None? ==> r == Ok(None)
    ensures entity.Some? && NewEmail(entity.value.email).Err? ==> r == Err(NewEmail(entity.value.email).failure)
    ensures entity.Some? && NewEmail(entity.value.email).Ok? ==>
              var e := entity.value;
              var built := NewUser(e.id, e.name, Some(NewEmail(e.email).value), e.age, e.createdAt);
              && (built.Err? ==> r == Err(built.failure))
              && (built.Ok? ==> r == Ok(Some(built.value)))
    ensures r.Ok? && r.value.Some? ==> r.value.value.Valid()
  {
    match entity
    case None => Ok(None)
    case Some(e) =>
      match NewEmail(e.email)
      case Err(f) => Err(f)
      case Ok(email) =>
        match NewUser(e.id, e.name, Some(email), e.age, e.createdAt)
        case Err(f) => Err(f)
        case Ok(user) => Ok(Some(user))
  }

  /** toEntity: null maps to null; otherwise each field is copied, the email as its string. */
  function ToEntity(user: Option<User>): Option<UserEntity> {
    match user
    case None => None
    case Some(u) => Some(UserEntity(u.id, Some(u.name), Some(u.email.value), u.age, u.createdAt))
  }

  /** Every valid user survives the trip through its entity unchanged: id, name, email, age and creation time. */
  lemma DomainRoundTrip(user: Option<User>)
    requires user.Some? ==> user.value.Valid()
    ensures ToDomain(ToEntity(user)) == Ok(user)
  {
    if user.Some? {
      IsValidMatchesPattern(user.value.email.value);
    }
  }

  /** Every entity the mapper accepts is rebuilt exactly by toEntity. */
  lemma EntityRoundTrip(entity: Option<UserEntity>)
    requires ToDomain(entity).Ok?
    ensures ToEntity(ToDomain(entity).value) == entity
  {
  }

  /** An entity is accepted exactly when its email, name and age satisfy the domain rules. */
  lemma AcceptsExactlyValidEntities(entity: UserEntity)
    ensures ToDomain(Some(entity)).Ok? <==>
              && entity.email.Some? && MatchesPattern(entity.email.value)
              && entity.name.Some? && !Strings.IsBlank(entity.name.value)
              && (entity.age.Some? ==> entity.age.value >= 0)
  {
  }
}
