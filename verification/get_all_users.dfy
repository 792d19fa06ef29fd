/** GetAllUsersUseCase: project every user findAll returns. */
module GetAllUsers {
  import opened Wrappers
  import opened Users
  import opened Repository
  import opened Dto

  /** `users.stream().map(this::toResponse).collect(toList())`. */
  function Responses(users: seq<User>): (r: seq<UserResponse>)
    ensures |r| == |users|
    ensures forall i :: 0 <= i < |users| ==> Describes(r[i], users[i])
  {
    if users == [] then [] else [ToResponse(users[0])] + Responses(users[1..])
  }

  /** What `execute()` does: one findAll call, never a write, and never a null list. */
  function Run(s: Store): (e: Execution<seq<UserResponse>>)
    ensures e.after == s && e.calls == [FindAllCall] && ReadOnly(e.calls)
    ensures e.result.Ok? && |e.result.value| == |s.FindAll()|
    ensures forall i :: 0 <= i < |s.FindAll()| ==> Describes(e.result.value[i], s.FindAll()[i])
  {
    Execution(Ok(Responses(s.FindAll())), [FindAllCall], s)
  }

  /**
    * In a valid store, getAll describes each stored user once, in ascending id order; an empty
    * store gives an empty list.
    */
  lemma ListsEveryUserOnce(s: Store)
    requires s.Valid()
    ensures |Run(s).result.value| == |s.users|
    ensures forall i :: 0 <= i < |s.users| ==>
              && Run(s).result.value[i].id.Some?
              && Run(s).result.value[i].id.value in s.users
              && Describes(Run(s).result.value[i], s.users[Run(s).result.value[i].id.value])
    ensures forall i, j :: 0 <= i < j < |s.users| ==> Run(s).result.value[i].id.value < Run(s).result.value[j].id.value
    ensures forall id :: id in s.users ==> exists i :: 0 <= i < |s.users| && Run(s).result.value[i].id == Some(id)
    ensures s.users == map[] ==> Run(s).result == Ok([])
  {
    FindAllIsExactlyStored(s);
    FindAllIsOrderedById(s);
    var all := s.FindAll();
    forall i | 0 <= i < |all|
      ensures all[i].id.Some? && all[i].id.value in s.users && s.users[all[i].id.value] == all[i]
    {
      assert all[i] in all;
    }
    forall id | id in s.users
      ensures exists i :: 0 <= i < |s.users| && Run(s).result.value[i].id == Some(id)
    {
      assert s.users[id] in all;
      var i :| 0 <= i < |all| && all[i] == s.users[id];
      assert Run(s).result.value[i].id == Some(id);
    }
  }

  /** The use-case object, holding the repository it was constructed with. */
  class GetAllUsersUseCase {
    const userRepository: InMemoryUserRepository

    constructor (userRepository: InMemoryUserRepository)
      ensures this.userRepository == userRepository
    {
      this.userRepository := userRepository;
    }

    function Execute(): Result<seq<UserResponse>>
      reads userRepository
    {
      Run(userRepository.State()).result
    }
  }
}
