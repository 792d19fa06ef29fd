/** UserService: the facade wiring the six use cases to one repository, and the workflows run through it. */
module UserServices {
  import opened Wrappers
  import opened Emails
  import opened Users
  import opened Repository
  import opened Dto
  import Create = CreateUser
  import ById = GetUserById
  import ByEmail = GetUserByEmail
  import All = GetAllUsers
  import Upd = UpdateUser
  import Del = DeleteUser

  class UserService {
    const createUserUseCase: Create.CreateUserUseCase
    const getUserByIdUseCase: ById.GetUserByIdUseCase
    const getAllUsersUseCase: All.GetAllUsersUseCase
    const updateUserUseCase: Upd.UpdateUserUseCase
    const deleteUserUseCase: Del.DeleteUserUseCase
    const getUserByEmailUseCase: ByEmail.GetUserByEmailUseCase
    /** The repository handed to the constructor. */
    ghost const userRepository: InMemoryUserRepository

    /** All six use cases share the one repository. */
    ghost predicate Wired() {
      && createUserUseCase.userRepository == userRepository
      && getUserByIdUseCase.userRepository == userRepository
      && getAllUsersUseCase.userRepository == userRepository
      && updateUserUseCase.userRepository == userRepository
      && deleteUserUseCase.userRepository == userRepository
      && getUserByEmailUseCase.userRepository == userRepository
    }

    constructor (userRepository: InMemoryUserRepository)
      ensures this.userRepository == userRepository && Wired()
    {
      this.createUserUseCase := new Create.CreateUserUseCase(userRepository);
      this.getUserByIdUseCase := new ById.GetUserByIdUseCase(userRepository);
      this.getAllUsersUseCase := new All.GetAllUsersUseCase(userRepository);
      this.updateUserUseCase := new Upd.UpdateUserUseCase(userRepository);
      this.deleteUserUseCase := new Del.DeleteUserUseCase(userRepository);
      this.getUserByEmailUseCase := new ByEmail.GetUserByEmailUseCase(userRepository);
      this.userRepository := userRepository;
    }

    method CreateUser(request: CreateUserRequest, now: Timestamp) returns (r: Result<UserResponse>)
      requires Wired() && userRepository.Valid()
      modifies userRepository
      ensures userRepository.Valid()
      ensures r == Create.Run(old(userRepository.State()), request, now).result
      ensures userRepository.State() == Create.Run(old(userRepository.State()), request, now).after
    {
      r := createUserUseCase.Execute(request, now);
    }

    method GetUserById(id: Option<int>) returns (r: Result<Option<UserResponse>>)
      requires Wired()
      ensures r == ById.Run(userRepository.State(), id).result
    {
      r := getUserByIdUseCase.Execute(id);
    }

    method GetAllUsers() returns (r: Result<seq<UserResponse>>)
      requires Wired()
      ensures r == All.Run(userRepository.State()).result
    {
      r := getAllUsersUseCase.Execute();
    }

    method UpdateUser(request: UpdateUserRequest) returns (r: Result<UserResponse>)
      requires Wired() && userRepository.Valid()
      modifies userRepository
      ensures userRepository.Valid()
      ensures r == Upd.Run(old(userRepository.State()), request).result
      ensures userRepository.State() == Upd.Run(old(userRepository.State()), request).after
    {
      r := updateUserUseCase.Execute(request);
    }

    method DeleteUser(id: Option<int>) returns (r: Result<bool>)
      requires Wired() && userRepository.Valid()
      modifies userRepository
      ensures userRepository.Valid()
      ensures r == Del.Run(old(userRepository.State()), id).result
      ensures userRepository.State() == Del.Run(old(userRepository.State()), id).after
    {
      r := deleteUserUseCase.Execute(id);
    }

    method GetUserByEmail(email: Option<string>) returns (r: Result<Option<UserResponse>>)
      requires Wired()
      ensures r == ByEmail.Run(userRepository.State(), email).result
    {
      r := getUserByEmailUseCase.Execute(email);
    }
  }

  /** Create, then get by the id it answered with, gives back the same response. */
  lemma CreateThenGetById(s: Store, request: CreateUserRequest, now: Timestamp)
    requires s.Valid() && Create.Run(s, request, now).result.Ok?
    ensures var created := Create.Run(s, request, now);
      ById.Run(created.after, created.result.value.id).result == Ok(Some(created.result.value))
  {
    var created := Create.Run(s, request, now);
    Create.CreateAddsOneUser(s, request, now);
    Create.SuccessResponse(s, request, now);
  }

  /** A second create with an email already stored fails as a duplicate and leaves the user count as it was. */
  lemma DuplicateCreateKeepsCount(s: Store, first: CreateUserRequest, second: CreateUserRequest, now: Timestamp, later: Timestamp)
    requires s.Valid() && Create.Run(s, first, now).result.Ok? && second.email == first.email
    ensures var t := Create.Run(s, first, now).after;
      && Create.Run(t, second, later).result == Err(IllegalArgument("User with this email already exists"))
      && |Create.Run(t, second, later).after.users| == |t.users|
  {
    var email := NewEmail(first.email).value;
    var user := NewTransientUser(first.name, Some(email), first.age).value;
    SaveTakesOneEmail(s, user, now, email);
    assert Create.Run(s, first, now).after == s.Save(user, now).1;
  }

  /** What a request may ask for without being refused by the Email or User constructors. */
  predicate Acceptable(request: CreateUserRequest) {
    NewEmail(request.email).Ok? && NewTransientUser(request.name, Some(NewEmail(request.email).value), request.age).Ok?
  }

  /** A run of creates, one after the other. */
  function CreateAll(s: Store, requests: seq<CreateUserRequest>, now: Timestamp): Store
    decreases |requests|
  {
    if requests == [] then s else CreateAll(Create.Run(s, requests[0], now).after, requests[1..], now)
  }

  /**
    * Creating users whose emails are acceptable, pairwise distinct and not yet stored adds that many
    * users, keeps every email unique, and leaves each email taken.
    */
  lemma {:induction false} DistinctCreatesAddThatMany(s: Store, requests: seq<CreateUserRequest>, now: Timestamp)
    requires s.Valid() && s.EmailsUnique()
    requires forall i :: 0 <= i < |requests| ==> Acceptable(requests[i]) && !s.ExistsByEmail(NewEmail(requests[i].email).value)
    requires forall i, j :: 0 <= i < j < |requests| ==> requests[i].email != requests[j].email
    ensures CreateAll(s, requests, now).Valid() && CreateAll(s, requests, now).EmailsUnique()
    ensures |CreateAll(s, requests, now).users| == |s.users| + |requests|
    decreases |requests|
  {
    if requests != [] {
      var request := requests[0];
      var email := NewEmail(request.email).value;
      var user := NewTransientUser(request.name, Some(email), request.age).value;
      assert !s.ExistsByEmail(email);
      var t := Create.Run(s, request, now).after;
      assert t == s.Save(user, now).1;
      Create.CreateAddsOneUser(s, request, now);
      Create.CreateKeepsInvariants(s, request, now);
      var rest := requests[1..];
      forall i | 0 <= i < |rest|
        ensures !t.ExistsByEmail(NewEmail(rest[i].email).value)
      {
        assert rest[i] == requests[i + 1];
        SaveTakesOneEmail(s, user, now, NewEmail(rest[i].email).value);
      }
      DistinctCreatesAddThatMany(t, rest, now);
    }
  }

  /** With unique emails, getAll answers with as many distinct emails as there are users. */
  lemma GetAllEmailsDistinct(s: Store)
    requires s.Valid() && s.EmailsUnique()
    ensures var all := All.Run(s).result.value;
      && |all| == |s.users|
      && forall i, j :: 0 <= i < j < |all| ==> all[i].email != all[j].email
  {
    All.ListsEveryUserOnce(s);
  }

  /**
    * The full cycle: create, read, update to new values, read them back, delete (answering true),
    * and read nothing.
    */
  lemma FullCycle(s: Store, request: CreateUserRequest, now: Timestamp, name: string, email: string, age: Option<int>)
    requires s.Valid() && s.EmailsUnique()
    requires Acceptable(request) && !s.ExistsByEmail(NewEmail(request.email).value)
    requires Acceptable(CreateUserRequest(Some(name), Some(email), age))
    requires Some(email) == request.email || !s.ExistsByEmail(Email(email))
    ensures var created := Create.Run(s, request, now);
      var id := created.result.value.id;
      var updated := Upd.Run(created.after, UpdateUserRequest(id, Some(name), Some(email), age));
      var deleted := Del.Run(updated.after, id);
      && created.result.Ok?
      && ById.Run(created.after, id).result == Ok(Some(created.result.value))
      && updated.result.Ok?
      && updated.result.value.name == name && updated.result.value.email == email && updated.result.value.age == age
      && ById.Run(updated.after, id).result == Ok(Some(updated.result.value))
      && deleted.result == Ok(true)
      && ById.Run(deleted.after, id).result == Ok(None)
  {
    var created := Create.Run(s, request, now);
    CreateThenGetById(s, request, now);
    Create.CreateAddsOneUser(s, request, now);
    Create.CreateKeepsInvariants(s, request, now);
    Create.SuccessResponse(s, request, now);
    var t := created.after;
    var id := created.result.value.id;
    var k := id.value;
    var change := UpdateUserRequest(id, Some(name), Some(email), age);
    var user := NewTransientUser(request.name, Some(NewEmail(request.email).value), request.age).value;
    assert t == s.Save(user, now).1;
    assert k == s.nextId && k in t.users && t.users[k].createdAt == Some(now);
    SaveTakesOneEmail(s, user, now, Email(email));
    assert Upd.ReachesWrite(t, change);
    Upd.WritePath(t, change);
    UpdateReplacesRecord(t, Upd.UpdatedUser(t, change));
    var u := Upd.Run(t, change);
    Del.DeleteRemovesOnlyThatUser(u.after, id);
  }
}
