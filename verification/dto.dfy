/** The request and response records the use cases exchange with their callers. */
module Dto {
  import opened Wrappers
  import opened Users

  /** CreateUserRequest: every field may be null. */
  datatype CreateUserRequest = CreateUserRequest(name: Option<string>, email: Option<string>, age: Option<int>)

  /** UpdateUserRequest: every field may be null. */
  datatype UpdateUserRequest = UpdateUserRequest(id: Option<int>, name: Option<string>, email: Option<string>, age: Option<int>)

  /**
    * UserResponse. The creation time is kept as the instant it stands for; its text form
    * (`LocalDateTime.toString()`) is not modelled, only whether it is null.
    */
  datatype UserResponse = UserResponse(id: Option<int>, name: string, email: string, age: Option<int>, createdAt: Option<Timestamp>)

  /** The `toResponse` projection shared by the create, get-by-id, get-by-email and get-all use cases. */
  function ToResponse(u: User): UserResponse {
    UserResponse(u.id, u.name, u.email.value, u.age, u.createdAt)
  }

  /** `Optional.map(this::toResponse)`. */
  function MapToResponse(u: Option<User>): Option<UserResponse> {
    match u
    case None => None
    case Some(user) => Some(ToResponse(user))
  }

  /** A response describes the user it was projected from: same id, name, email string, age and creation time. */
  predicate Describes(r: UserResponse, u: User) {
    && r.id == u.id
    && r.name == u.name
    && r.email == u.email.value
    && r.age == u.age
    && r.createdAt == u.createdAt
  }

  /** The projection keeps every field, absent age and creation time included, and loses nothing. */
  lemma ToResponseDescribes(u: User, v: User)
    ensures Describes(ToResponse(u), u)
    ensures ToResponse(u) == ToResponse(v) <==> u == v
  {
  }
}
