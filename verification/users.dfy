/** The User entity: immutable, validated on construction, identified by its email. */
module Users {
  import opened Wrappers
  import opened Emails
  import Strings

  /** A LocalDateTime, treated as an opaque instant. */
  datatype Timestamp = Timestamp(instant: int)

  datatype User = User(id: Option<int>, name: string, email: Email, age: Option<int>, createdAt: Option<Timestamp>) {
    /** What `validate()` and the Email constructor guarantee of every User object. */
    predicate Valid() {
      && !Strings.IsBlank(name)
      && (age.Some? ==> age.value >= 0)
      && email.Valid()
    }
  }

  /**
    * The five-argument constructor: name, then email, are checked for null; then `validate()`
    * refuses a blank name and, after that, a negative age.
    */
  function NewUser(id: Option<int>, name: Option<string>, email: Option<Email>, age: Option<int>,
                   createdAt: Option<Timestamp>): (r: Result<User>)
    requires email.Some? ==> email.value.Valid()
    ensures name.None? ==> r == Err(NullPointer("Name cannot be null"))
    ensures name.Some? && email.None? ==> r == Err(NullPointer("Email cannot be null"))
    ensures name.Some? && email.Some? && (forall i :: 0 <= i < |name.value| ==> name.value[i] <= ' ') ==>
              r == Err(IllegalArgument("Name cannot be empty"))
    ensures r.Ok? <==> name.Some? && email.Some? && !Strings.IsBlank(name.value) && (age.Some? ==> age.value >= 0)
    ensures r.Ok? ==> r.value.Valid()
    ensures r.Ok? ==> r.value == User(id, name.value, email.value, age, createdAt)
    ensures r.Err? && name.Some? && email.Some? && !Strings.IsBlank(name.value) ==>
              r == Err(IllegalArgument("Age cannot be negative"))
  {
    if name.None? then Err(NullPointer("Name cannot be null"))
    else if email.None? then Err(NullPointer("Email cannot be null"))
    else
      Strings.BlankIffAllTrimmable(name.value);
      if Strings.IsBlank(name.value) then Err(IllegalArgument("Name cannot be empty"))
      else if age.Some? && age.value < 0 then Err(IllegalArgument("Age cannot be negative"))
      else Ok(User(id, name.value, email.value, age, createdAt))
  }

  /** The three-argument constructor: a transient user, with neither id nor creation time. */
  function NewTransientUser(name: Option<string>, email: Option<Email>, age: Option<int>): (r: Result<User>)
    requires email.Some? ==> email.value.Valid()
    ensures r.Err? <==> name.None? || email.None? || Strings.IsBlank(name.value) || (age.Some? && age.value < 0)
    ensures r.Ok? ==> r.value.id.None? && r.value.createdAt.None?
    ensures r.Ok? ==> name == Some(r.value.name) && email == Some(r.value.email) && r.value.age == age
    ensures r.Ok? ==> r.value.Valid()
  {
    NewUser(None, name, email, age, None)
  }

  /** isAdult(): an age is known and at least 18. */
  predicate IsAdult(u: User) {
    u.age.Some? && u.age.value >= 18
  }

  /** The boundary cases the unit tests check. */
  lemma AdultBoundary(u: User)
    ensures u.age == Some(18) ==> IsAdult(u)
    ensures u.age == Some(17) ==> !IsAdult(u)
    ensures u.age.None? ==> !IsAdult(u)
  {
  }

  /** update(name, email, age): a new, re-validated user with this user's id and creation time. */
  function Update(u: User, name: Option<string>, email: Option<Email>, age: Option<int>): (r: Result<User>)
    requires email.Some? ==> email.value.Valid()
    ensures r.Err? <==> name.None? || email.None? || Strings.IsBlank(name.value) || (age.Some? && age.value < 0)
    ensures r.Ok? ==> r.value.id == u.id && r.value.createdAt == u.createdAt
    ensures r.Ok? ==> name == Some(r.value.name) && email == Some(r.value.email) && r.value.age == age
    ensures r.Ok? ==> r.value.Valid()
  {
    NewUser(u.id, name, email, age, u.createdAt)
  }

  /**
    * An update fails exactly when constructing a fresh user from the same values fails, with the
    * same exception; when it succeeds the result is that fresh user carrying the old identity,
    * and so equal to it under User.equals.
    */
  lemma UpdateIsFreshUserWithOldIdentity(u: User, name: Option<string>, email: Option<Email>, age: Option<int>)
    requires email.Some? ==> email.value.Valid()
    ensures Update(u, name, email, age).Err? <==> NewTransientUser(name, email, age).Err?
    ensures Update(u, name, email, age).Err? ==> Update(u, name, email, age) == NewTransientUser(name, email, age)
    ensures Update(u, name, email, age).Ok? ==>
              Update(u, name, email, age).value
                == NewTransientUser(name, email, age).value.(id := u.id, createdAt := u.createdAt)
    ensures Update(u, name, email, age).Ok? ==>
              Equals(Update(u, name, email, age).value, NewTransientUser(name, email, age).value)
  {
  }

  /** User.equals: only the emails are compared. */
  predicate Equals(a: User, b: User) {
    Emails.Equals(a.email, b.email)
  }

  /** User.hashCode(): Objects.hash(email). */
  function HashCode(u: User): int {
    Strings.SingleFieldHash(Emails.HashCode(u.email))
  }

  /** Users with the same email are equal and hash alike whatever their id, name, age and creation time. */
  lemma EqualityIsByEmailOnly(a: User, b: User)
    ensures Equals(a, b) <==> a.email == b.email
    ensures a.email == b.email ==> HashCode(a) == HashCode(b)
  {
  }
}
