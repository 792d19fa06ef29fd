/** GetUserByIdUseCase: refuse a null or non-positive id, then look the user up. */
module GetUserById {
  import opened Wrappers
  import opened Users
  import opened Repository
  import opened Dto

  /** The guard: a null id, zero and negative ids are refused. */
  predicate IsValidId(id: Option<int>) {
    id.Some? && id.value > 0
  }

  /** What `execute(id)` does: it reads and never writes. */
  function Run(s: Store, id: Option<int>): (e: Execution<Option<UserResponse>>)
    ensures e.after == s && ReadOnly(e.calls)
    // a null or non-positive id is refused before any repository call
    ensures !IsValidId(id) ==> e.result == Err(IllegalArgument("Invalid user ID")) && e.calls == []
    // otherwise one findById call, and an absent user is an empty result rather than an error
    ensures IsValidId(id) ==>
              && e.calls == [FindByIdCall(id)]
              && e.result.Ok?
              && (e.result.value.None? <==> id.value !in s.users)
    // a present user is described field for field, an absent age or creation time as null
    ensures IsValidId(id) && id.value in s.users ==> Describes(e.result.value.value, s.users[id.value])
  {
    if id.None? || id.value <= 0 then
      Execution(Err(IllegalArgument("Invalid user ID")), [], s)
    else
      Execution(Ok(MapToResponse(s.FindById(id))), [FindByIdCall(id)], s)
  }

  /** The use-case object, holding the repository it was constructed with. */
  class GetUserByIdUseCase {
    const userRepository: InMemoryUserRepository

    constructor (userRepository: InMemoryUserRepository)
      ensures this.userRepository == userRepository
    {
      this.userRepository := userRepository;
    }

    function Execute(id: Option<int>): Result<Option<UserResponse>>
      reads userRepository
    {
      Run(userRepository.State(), id).result
    }
  }
}
