/** CreateUserUseCase: build the email, refuse a taken one, build the user, save it. */
module CreateUser {
  import opened Wrappers
  import opened Emails
  import opened Users
  import opened Repository
  import opened Dto

  /**
    * What `execute(request)` does to a store, with `now` as the clock `save` reads. The Email is
    * built twice in the source, from the same string, so both constructions give the same result.
    */
  function Run(s: Store, request: CreateUserRequest, now: Timestamp): (e: Execution<UserResponse>)
    // every state change is the effect of the repository calls made
    ensures e.after == Replay(s, e.calls)
    // a failure writes nothing
    ensures e.result.Err? ==> ReadOnly(e.calls) && e.after == s
    // success exactly when the email is well formed and free and the user is valid
    ensures e.result.Ok? <==>
              && NewEmail(request.email).Ok?
              && !s.ExistsByEmail(NewEmail(request.email).value)
              && NewTransientUser(request.name, Some(NewEmail(request.email).value), request.age).Ok?
  {
    match NewEmail(request.email)
    case Err(f) => Execution(Err(f), [], s)
    case Ok(email) =>
      var checked := [ExistsByEmailCall(email)];
      ReplayOne(s, checked[0]);
      if s.ExistsByEmail(email) then
        Execution(Err(IllegalArgument("User with this email already exists")), checked, s)
      else
        match NewTransientUser(request.name, Some(email), request.age)
        case Err(f) => Execution(Err(f), checked, s)
        case Ok(user) =>
          var (saved, t) := s.Save(user, now);
          ReplayTwo(s, checked[0], SaveCall(user, now));
          Execution(Ok(ToResponse(saved)), checked + [SaveCall(user, now)], t)
  }

  /** A null or malformed email fails in the Email constructor, before any repository call. */
  lemma BadEmailFailsFirst(s: Store, request: CreateUserRequest, now: Timestamp)
    requires NewEmail(request.email).Err?
    ensures Run(s, request, now) == Execution(Err(NewEmail(request.email).failure), [], s)
  {
  }

  /**
    * A taken email is reported as a duplicate whatever the name and age hold (the duplicate check
    * comes before the User is built), after one existsByEmail call and no save.
    */
  lemma TakenEmailFailsBeforeUserChecks(s: Store, request: CreateUserRequest, now: Timestamp)
    requires NewEmail(request.email).Ok? && s.ExistsByEmail(NewEmail(request.email).value)
    ensures Run(s, request, now) ==
              Execution(Err(IllegalArgument("User with this email already exists")),
                        [ExistsByEmailCall(NewEmail(request.email).value)], s)
  {
  }

  /** With a free email, a null or blank name or a negative age fails in the User constructor, with no save. */
  lemma InvalidUserFailsWithoutSave(s: Store, request: CreateUserRequest, now: Timestamp)
    requires NewEmail(request.email).Ok? && !s.ExistsByEmail(NewEmail(request.email).value)
    requires NewTransientUser(request.name, Some(NewEmail(request.email).value), request.age).Err?
    ensures Run(s, request, now) ==
              Execution(Err(NewTransientUser(request.name, Some(NewEmail(request.email).value), request.age).failure),
                        [ExistsByEmailCall(NewEmail(request.email).value)], s)
  {
  }

  /** A success makes exactly one write, a save of a transient user carrying the request's name, email and age. */
  lemma SuccessSavesOnce(s: Store, request: CreateUserRequest, now: Timestamp)
    requires Run(s, request, now).result.Ok?
    ensures var calls := Run(s, request, now).calls;
      && |calls| == 2 && !calls[0].IsWrite() && calls[1].SaveCall? && calls[1].now == now
      && calls[1].user.id.None? && calls[1].user.createdAt.None?
      && request.name == Some(calls[1].user.name)
      && request.email == Some(calls[1].user.email.value)
      && calls[1].user.age == request.age
  {
  }

  /** The response of a success carries the fresh id, the request's name, email and age, and the save time. */
  lemma SuccessResponse(s: Store, request: CreateUserRequest, now: Timestamp)
    requires Run(s, request, now).result.Ok?
    ensures var r := Run(s, request, now).result.value;
      && r.id == Some(s.nextId)
      && request.name == Some(r.name)
      && request.email == Some(r.email)
      && r.age == request.age
      && r.createdAt == Some(now)
  {
  }

  /** A successful create adds one user under a fresh id and keeps every earlier record. */
  lemma CreateAddsOneUser(s: Store, request: CreateUserRequest, now: Timestamp)
    requires s.Valid() && Run(s, request, now).result.Ok?
    ensures var e := Run(s, request, now);
      && e.result.value.id.Some?
      && e.result.value.id.value !in s.users
      && e.after.FindById(e.result.value.id).Some?
      && Describes(e.result.value, e.after.FindById(e.result.value.id).value)
      && (forall k :: k in s.users ==> e.after.FindById(Some(k)) == s.FindById(Some(k)))
      && |e.after.users| == |s.users| + 1
  {
    var email := NewEmail(request.email).value;
    var user := NewTransientUser(request.name, Some(email), request.age).value;
    SaveStoresUnderFreshId(s, user, now);
    assert Run(s, request, now).after == s.Save(user, now).1;
    assert Run(s, request, now).result.value == ToResponse(s.Save(user, now).0);
  }

  /** Create keeps the store valid, its emails unique and its records stamped. */
  lemma CreateKeepsInvariants(s: Store, request: CreateUserRequest, now: Timestamp)
    requires s.Valid()
    ensures Run(s, request, now).after.Valid()
    ensures s.EmailsUnique() ==> Run(s, request, now).after.EmailsUnique()
    ensures s.AllStamped() ==> Run(s, request, now).after.AllStamped()
  {
    if Run(s, request, now).result.Ok? {
      var email := NewEmail(request.email).value;
      var user := NewTransientUser(request.name, Some(email), request.age).value;
      SaveStoresUnderFreshId(s, user, now);
      SaveKeepsInvariants(s, user, now);
      assert Run(s, request, now).after == s.Save(user, now).1;
    }
  }

  /** The use-case object, holding the repository it was constructed with. */
  class CreateUserUseCase {
    const userRepository: InMemoryUserRepository

    constructor (userRepository: InMemoryUserRepository)
      ensures this.userRepository == userRepository
    {
      this.userRepository := userRepository;
    }

    method Execute(request: CreateUserRequest, now: Timestamp) returns (r: Result<UserResponse>)
      requires userRepository.Valid()
      modifies userRepository
      ensures userRepository.Valid()
      ensures r == Run(old(userRepository.State()), request, now).result
      ensures userRepository.State() == Run(old(userRepository.State()), request, now).after
    {
      var email := NewEmail(request.email);
      if email.Err? {
        return Err(email.failure);
      }
      if userRepository.ExistsByEmail(email.value) {
        return Err(IllegalArgument("User with this email already exists"));
      }
      var user := NewTransientUser(request.name, Some(email.value), request.age);
      if user.Err? {
        return Err(user.failure);
      }
      var saved := userRepository.Save(user.value, now);
      r := Ok(ToResponse(saved));
    }
  }
}
