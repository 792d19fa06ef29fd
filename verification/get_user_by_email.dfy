/** GetUserByEmailUseCase: refuse a null or blank string, build the Email, then look the user up. */
module GetUserByEmail {
  import opened Wrappers
  import opened Emails
  import opened Users
  import opened Repository
  import opened Dto
  import Strings

  /** What `execute(email)` does: it reads and never writes. */
  function Run(s: Store, email: Option<string>): (e: Execution<Option<UserResponse>>)
    ensures e.after == s && ReadOnly(e.calls)
    // a result describes a user holding that very email
    ensures e.result.Ok? ==> email.Some? && (e.result.value.Some? ==> e.result.value.value.email == email.value)
  {
    if email.None? || Strings.IsBlank(email.value) then
      Execution(Err(IllegalArgument("Email cannot be empty")), [], s)
    else
      match NewEmail(email)
      case Err(f) => Execution(Err(f), [], s)
      case Ok(address) =>
        var found := s.FindByEmail(address);
        Execution(Ok(MapToResponse(found)), [FindByEmailCall(address)], s)
  }

  /**
    * The input is checked before any repository call: null, empty and whitespace-only input is
    * refused as empty, a malformed one as badly formatted; anything else is looked up once, exactly
    * as given (not trimmed).
    */
  lemma ChecksBeforeLookup(s: Store, email: Option<string>)
    ensures email.None? || Strings.IsBlank(email.value) ==>
              Run(s, email) == Execution(Err(IllegalArgument("Email cannot be empty")), [], s)
    ensures email.Some? && !Strings.IsBlank(email.value) && !MatchesPattern(email.value) ==>
              Run(s, email) == Execution(Err(IllegalArgument("Invalid email format: " + email.value)), [], s)
    ensures email.Some? && !Strings.IsBlank(email.value) && MatchesPattern(email.value) ==>
              Run(s, email).calls == [FindByEmailCall(Email(email.value))] && Run(s, email).result.Ok?
  {
  }

  /**
    * In a valid store, a well-formed email finds something exactly when some stored user holds it;
    * with unique emails, what it finds is that user's description.
    */
  lemma FindsTheOwner(s: Store, email: string)
    requires s.Valid() && !Strings.IsBlank(email) && MatchesPattern(email)
    ensures Run(s, Some(email)).result.Ok?
    ensures Run(s, Some(email)).result.value.Some? <==> s.ExistsByEmail(Email(email))
    ensures forall id :: id in s.users && s.users[id].email == Email(email) && s.EmailsUnique() ==>
              Run(s, Some(email)).result == Ok(Some(ToResponse(s.users[id])))
  {
    ExistsIffFindByEmailPresent(s, Email(email));
    forall id | id in s.users && s.users[id].email == Email(email) && s.EmailsUnique()
      ensures Run(s, Some(email)).result == Ok(Some(ToResponse(s.users[id])))
    {
      FindByEmailFindsOwner(s, id);
    }
  }

  /** The use-case object, holding the repository it was constructed with. */
  class GetUserByEmailUseCase {
    const userRepository: InMemoryUserRepository

    constructor (userRepository: InMemoryUserRepository)
      ensures this.userRepository == userRepository
    {
      this.userRepository := userRepository;
    }

    function Execute(email: Option<string>): Result<Option<UserResponse>>
      reads userRepository
    {
      Run(userRepository.State(), email).result
    }
  }
}
