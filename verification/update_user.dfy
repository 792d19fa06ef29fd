/**
  * UpdateUserUseCase: look the user up, build the new Email, refuse an email that changed and is
  * taken, build the updated user, write it, and project it.
  */
module UpdateUser {
  import opened Wrappers
  import opened Emails
  import opened Users
  import opened Repository
  import opened Dto
  import Strings

  /** This use case's own `toResponse`: it formats `createdAt` without a null check. */
  function ToResponseOrFail(u: User): (r: Result<UserResponse>)
    ensures r.Err? <==> u.createdAt.None?
    ensures r.Err? ==> r.failure == NullDereference
    ensures r.Ok? ==> Describes(r.value, u)
  {
    if u.createdAt.None? then Err(NullDereference) else Ok(ToResponse(u))
  }

  /** `findUserById(id)`: there is no guard on the id, so null, zero and negative ids are simply not found. */
  function NotFound(id: Option<int>): Failure {
    IllegalArgument("User not found with ID: " + Strings.LongText(id))
  }

  /** `ensureEmailIsAvailable`: the email counts as taken only when it changed. */
  function Duplicate(email: Email): Failure {
    IllegalArgument("User with email " + email.value + " already exists")
  }

  /** What `execute(request)` does to a store. */
  function Run(s: Store, request: UpdateUserRequest): (e: Execution<UserResponse>)
    // every state change is the effect of the repository calls made
    ensures e.after == Replay(s, e.calls)
  {
    var lookup := [FindByIdCall(request.id)];
    ReadOnlyCallsChangeNothing(s, lookup);
    match s.FindById(request.id)
    case None => Execution(Err(NotFound(request.id)), lookup, s)
    case Some(existing) =>
      match NewEmail(request.email)
      case Err(f) => Execution(Err(f), lookup, s)
      case Ok(newEmail) =>
        var checked := lookup + [ExistsByEmailCall(newEmail)];
        ReadOnlyCallsChangeNothing(s, checked);
        var isEmailChanged := !Emails.Equals(existing.email, newEmail);
        var isEmailTaken := s.ExistsByEmail(newEmail);
        if isEmailChanged && isEmailTaken then
          Execution(Err(Duplicate(newEmail)), checked, s)
        else
          match Users.Update(existing, request.name, Some(newEmail), request.age)
          case Err(f) => Execution(Err(f), checked, s)
          case Ok(updated) =>
            var (written, t) := s.Update(updated);
            var calls := checked + [UpdateCall(updated)];
            ReplayReadsThen(s, checked, UpdateCall(updated));
            if written.Err? then Execution(Err(written.failure), calls, t)
            else Execution(ToResponseOrFail(updated), calls, t)
  }

  /**
    * The lookup is always the first call, and every failure but the unguarded createdAt dereference
    * leaves the store as it was.
    */
  lemma LookupFirstAndFailuresWriteNothing(s: Store, request: UpdateUserRequest)
    ensures var e := Run(s, request);
      && |e.calls| >= 1 && e.calls[0] == FindByIdCall(request.id)
      && (e.result.Err? && e.result.failure != NullDereference ==> e.after == s)
  {
    if ReachesWrite(s, request) {
      var updated := UpdatedUser(s, request);
      var (written, t) := s.Update(updated);
      if written.Err? {
        assert t == s;
      }
    }
  }

  /**
    * An id with no user fails with "User not found with ID: <id>" after the lookup alone; in a valid
    * store this is also what a null, zero or negative id gets, since nothing guards it up front.
    */
  lemma UnknownIdIsNotFound(s: Store, request: UpdateUserRequest)
    ensures s.FindById(request.id).None? ==>
              Run(s, request) == Execution(Err(NotFound(request.id)), [FindByIdCall(request.id)], s)
    ensures s.Valid() && (request.id.None? || request.id.value <= 0) ==>
              Run(s, request) == Execution(Err(NotFound(request.id)), [FindByIdCall(request.id)], s)
  {
  }

  /** A malformed new email fails after the lookup and before any other call. */
  lemma MalformedEmailFailsAfterLookup(s: Store, request: UpdateUserRequest)
    requires s.FindById(request.id).Some? && NewEmail(request.email).Err?
    ensures Run(s, request) == Execution(Err(NewEmail(request.email).failure), [FindByIdCall(request.id)], s)
  {
  }

  /**
    * Once the user is found and the email is well formed, existsByEmail is called whether or not the
    * email changed, and the duplicate failure is reported exactly when the email changed and is taken.
    * Resubmitting the user's own email therefore never fails as a duplicate.
    */
  lemma DuplicateIffChangedAndTaken(s: Store, request: UpdateUserRequest)
    requires s.FindById(request.id).Some? && NewEmail(request.email).Ok?
    ensures var e := Run(s, request);
      var newEmail := NewEmail(request.email).value;
      && |e.calls| >= 2 && e.calls[1] == ExistsByEmailCall(newEmail)
      && (e.result == Err(Duplicate(newEmail)) <==>
            s.FindById(request.id).value.email != newEmail && s.ExistsByEmail(newEmail))
    ensures s.FindById(request.id).value.email == NewEmail(request.email).value ==>
              Run(s, request).result != Err(Duplicate(NewEmail(request.email).value))
  {
    var existing := s.FindById(request.id).value;
    var newEmail := NewEmail(request.email).value;
    if Users.Update(existing, request.name, Some(newEmail), request.age).Ok? {
      var updated := Users.Update(existing, request.name, Some(newEmail), request.age).value;
      var (written, t) := s.Update(updated);
      if written.Err? {
        assert written.failure == NotFound(updated.id);
        assert NotFound(updated.id).message[5] == 'n';
        assert Duplicate(newEmail).message[5] == 'w';
      }
    }
  }

  /**
    * The duplicate failure names the submitted email ("User with email <v> already exists"), so it is
    * never the message "User with this email already exists" that the create use case reports.
    */
  lemma DuplicateMessageNamesTheEmail(s: Store, request: UpdateUserRequest)
    requires s.FindById(request.id).Some? && NewEmail(request.email).Ok?
    requires s.FindById(request.id).value.email != NewEmail(request.email).value && s.ExistsByEmail(NewEmail(request.email).value)
    ensures Run(s, request).result == Err(IllegalArgument("User with email " + request.email.value + " already exists"))
    ensures Run(s, request).result != Err(IllegalArgument("User with this email already exists"))
  {
    DuplicateIffChangedAndTaken(s, request);
    var m := "User with email " + request.email.value + " already exists";
    assert m[10] == 'e';
    assert "User with this email already exists"[10] == 't';
  }

  /** A null or blank name or a negative age fails inside User.update, and nothing is written. */
  lemma InvalidFieldsWriteNothing(s: Store, request: UpdateUserRequest)
    requires s.FindById(request.id).Some? && NewEmail(request.email).Ok?
    requires !(s.FindById(request.id).value.email != NewEmail(request.email).value && s.ExistsByEmail(NewEmail(request.email).value))
    requires Users.Update(s.FindById(request.id).value, request.name, Some(NewEmail(request.email).value), request.age).Err?
    ensures Run(s, request).result ==
              Err(Users.Update(s.FindById(request.id).value, request.name, Some(NewEmail(request.email).value), request.age).failure)
    ensures Run(s, request).after == s
  {
  }

  /**
    * The path that reaches the write: the user is found, the email is well formed and free or
    * unchanged, and the updated user is valid. In a valid store the write then succeeds.
    */
  predicate ReachesWrite(s: Store, request: UpdateUserRequest) {
    && s.FindById(request.id).Some?
    && NewEmail(request.email).Ok?
    && !(s.FindById(request.id).value.email != NewEmail(request.email).value && s.ExistsByEmail(NewEmail(request.email).value))
    && Users.Update(s.FindById(request.id).value, request.name, Some(NewEmail(request.email).value), request.age).Ok?
  }

  /** The user the write stores, on the path that reaches it. */
  function UpdatedUser(s: Store, request: UpdateUserRequest): (u: User)
    requires ReachesWrite(s, request)
    ensures u.Valid()
  {
    Users.Update(s.FindById(request.id).value, request.name, Some(NewEmail(request.email).value), request.age).value
  }

  /** In a valid store, the path that reaches the write makes three calls and stores the updated user. */
  lemma {:induction false} WritePath(s: Store, request: UpdateUserRequest)
    requires s.Valid() && ReachesWrite(s, request)
    ensures UpdatedUser(s, request).id == request.id && request.id.value in s.users
    ensures Run(s, request).calls ==
              [FindByIdCall(request.id), ExistsByEmailCall(NewEmail(request.email).value), UpdateCall(UpdatedUser(s, request))]
    ensures Run(s, request).after == s.Update(UpdatedUser(s, request)).1
    ensures Run(s, request).result == ToResponseOrFail(UpdatedUser(s, request))
  {
    var existing := s.FindById(request.id).value;
    var k := request.id.value;
    assert k in s.users && existing == s.users[k];
    assert s.users[k].id == Some(k);
    assert request.id == Some(k);
    assert existing.id == request.id;
    UpdateReplacesRecord(s, UpdatedUser(s, request));
  }

  /** Only the path that reaches the write can succeed or end in the null dereference. */
  lemma {:induction false} OtherPathsWriteNothing(s: Store, request: UpdateUserRequest)
    requires !ReachesWrite(s, request)
    ensures Run(s, request).result.Err? && Run(s, request).result.failure != NullDereference
    ensures Run(s, request).after == s
  {
  }

  /**
    * In a valid store a success writes exactly once: update of the existing user with the request's
    * name, email and age and with its own id and creation time, and the response describes it.
    */
  lemma SuccessWritesOnce(s: Store, request: UpdateUserRequest)
    requires s.Valid() && Run(s, request).result.Ok?
    ensures ReachesWrite(s, request)
    ensures var e := Run(s, request);
      var existing := s.FindById(request.id).value;
      && |e.calls| == 3 && e.calls[2].UpdateCall?
      && e.calls[2].user.id == existing.id && e.calls[2].user.createdAt == existing.createdAt
      && request.name == Some(e.calls[2].user.name)
      && request.email == Some(e.calls[2].user.email.value)
      && e.calls[2].user.age == request.age
      && Describes(e.result.value, e.calls[2].user)
      && e.after.FindById(request.id) == Some(e.calls[2].user)
  {
    if !ReachesWrite(s, request) {
      OtherPathsWriteNothing(s, request);
    } else {
      WritePath(s, request);
      UpdateReplacesRecord(s, UpdatedUser(s, request));
    }
  }

  /**
    * A user with no creation time is written and then fails in the response projection: the store
    * holds the new values although the call reports a NullPointerException.
    */
  lemma MissingCreatedAtFailsAfterWrite(s: Store, request: UpdateUserRequest)
    requires s.Valid() && ReachesWrite(s, request) && s.FindById(request.id).value.createdAt.None?
    ensures Run(s, request).result == Err(NullDereference)
    ensures var stored := Run(s, request).after.FindById(request.id);
      && stored.Some? && request.name == Some(stored.value.name)
      && request.email == Some(stored.value.email.value) && stored.value.age == request.age
  {
    WritePath(s, request);
    UpdateReplacesRecord(s, UpdatedUser(s, request));
  }

  /** In a valid store whose records are all stamped, update never ends in the null dereference, and a failure writes nothing. */
  lemma StampedStoreNeverDereferencesNull(s: Store, request: UpdateUserRequest)
    requires s.Valid() && s.AllStamped()
    ensures Run(s, request).result.Err? ==> Run(s, request).after == s
    ensures Run(s, request).result != Err(NullDereference)
  {
    if ReachesWrite(s, request) {
      WritePath(s, request);
      var k := request.id.value;
      assert k in s.users && s.FindById(request.id).value == s.users[k];
      assert s.users[k].createdAt.Some?;
      assert UpdatedUser(s, request).createdAt.Some?;
    } else {
      OtherPathsWriteNothing(s, request);
    }
  }

  /** Update keeps the store valid and its records stamped. */
  lemma UpdateKeepsValidity(s: Store, request: UpdateUserRequest)
    requires s.Valid()
    ensures Run(s, request).after.Valid()
    ensures s.AllStamped() ==> Run(s, request).after.AllStamped()
  {
    if ReachesWrite(s, request) {
      WritePath(s, request);
      UpdateReplacesRecord(s, UpdatedUser(s, request));
      Repository.UpdateKeepsInvariants(s, UpdatedUser(s, request));
    } else {
      OtherPathsWriteNothing(s, request);
    }
  }

  /** Update keeps the emails unique: the new email is either the user's own or held by nobody. */
  lemma UpdateKeepsEmailsUnique(s: Store, request: UpdateUserRequest)
    requires s.Valid() && s.EmailsUnique()
    ensures Run(s, request).after.EmailsUnique()
  {
    if ReachesWrite(s, request) {
      WritePath(s, request);
      var user := UpdatedUser(s, request);
      var id := request.id.value;
      forall k | k in s.users && s.users[k].email == user.email
        ensures Some(k) == user.id
      {
        assert s.users[k].email == NewEmail(request.email).value;
      }
      Repository.UpdateKeepsInvariants(s, user);
    } else {
      OtherPathsWriteNothing(s, request);
    }
  }

  /** The use-case object, holding the repository it was constructed with. */
  class UpdateUserUseCase {
    const userRepository: InMemoryUserRepository

    constructor (userRepository: InMemoryUserRepository)
      ensures this.userRepository == userRepository
    {
      this.userRepository := userRepository;
    }

    method Execute(request: UpdateUserRequest) returns (r: Result<UserResponse>)
      requires userRepository.Valid()
      modifies userRepository
      ensures userRepository.Valid()
      ensures r == Run(old(userRepository.State()), request).result
      ensures userRepository.State() == Run(old(userRepository.State()), request).after
    {
      var found := userRepository.FindById(request.id);
      if found.None? {
        return Err(NotFound(request.id));
      }
      var existing := found.value;
      var newEmail := NewEmail(request.email);
      if newEmail.Err? {
        return Err(newEmail.failure);
      }
      var isEmailChanged := !Emails.Equals(existing.email, newEmail.value);
      var isEmailTaken := userRepository.ExistsByEmail(newEmail.value);
      if isEmailChanged && isEmailTaken {
        return Err(Duplicate(newEmail.value));
      }
      var updated := Users.Update(existing, request.name, Some(newEmail.value), request.age);
      if updated.Err? {
        return Err(updated.failure);
      }
      var written := userRepository.Update(updated.value);
      if written.Err? {
        return Err(written.failure);
      }
      r := ToResponseOrFail(updated.value);
    }
  }
}
