/** DeleteUserUseCase: refuse a null or non-positive id, report an absent user, otherwise delete it. */
module DeleteUser {
  import opened Wrappers
  import opened Users
  import opened Repository

  /** What `execute(id)` does to a store. */
  function Run(s: Store, id: Option<int>): (e: Execution<bool>)
    ensures e.after == Replay(s, e.calls)
    // a null, zero or negative id is refused before any repository call
    ensures id.None? || id.value <= 0 ==> e == Execution(Err(IllegalArgument("Invalid user ID")), [], s)
    // an absent user gives false after the lookup alone: delete is never called
    ensures id.Some? && id.value > 0 && id.value !in s.users ==> e == Execution(Ok(false), [FindByIdCall(id)], s)
    // a present user is deleted by exactly one delete call, and the answer is true
    ensures id.Some? && id.value > 0 && id.value in s.users ==>
              e.result == Ok(true) && e.calls == [FindByIdCall(id), DeleteCall(id.value)]
  {
    if id.None? || id.value <= 0 then
      Execution(Err(IllegalArgument("Invalid user ID")), [], s)
    else if s.FindById(id).None? then
      ReplayOne(s, FindByIdCall(id));
      Execution(Ok(false), [FindByIdCall(id)], s)
    else
      ReplayTwo(s, FindByIdCall(id), DeleteCall(id.value));
      Execution(Ok(true), [FindByIdCall(id), DeleteCall(id.value)], s.Delete(id.value))
  }

  /**
    * After a true answer the id is gone and every other user is as it was, one user fewer; any other
    * answer leaves the store as it was. The store stays valid, its emails unique, its records stamped.
    */
  lemma DeleteRemovesOnlyThatUser(s: Store, id: Option<int>)
    requires s.Valid()
    ensures var e := Run(s, id);
      && e.after.Valid()
      && (e.result == Ok(true) ==>
            && e.after.FindById(id).None?
            && (forall k :: Some(k) != id ==> e.after.FindById(Some(k)) == s.FindById(Some(k)))
            && |e.after.users| == |s.users| - 1)
      && (e.result != Ok(true) ==> e.after == s)
      && (s.EmailsUnique() ==> e.after.EmailsUnique())
      && (s.AllStamped() ==> e.after.AllStamped())
  {
    if id.Some? {
      DeleteRemovesOnlyThatId(s, id.value);
      DeleteKeepsInvariants(s, id.value);
    }
  }

  /** The use-case object, holding the repository it was constructed with. */
  class DeleteUserUseCase {
    const userRepository: InMemoryUserRepository

    constructor (userRepository: InMemoryUserRepository)
      ensures this.userRepository == userRepository
    {
      this.userRepository := userRepository;
    }

    method Execute(id: Option<int>) returns (r: Result<bool>)
      requires userRepository.Valid()
      modifies userRepository
      ensures userRepository.Valid()
      ensures r == Run(old(userRepository.State()), id).result
      ensures userRepository.State() == Run(old(userRepository.State()), id).after
    {
      if id.None? || id.value <= 0 {
        return Err(IllegalArgument("Invalid user ID"));
      }
      if userRepository.FindById(id).None? {
        return Ok(false);
      }
      userRepository.Delete(id.value);
      r := Ok(true);
    }
  }
}
