/** UserEvent: the message the user service publishes when a user is created or deleted. */
module Events {
  import opened Wrappers

  /** Every field may be null, as the all-arguments constructor stores whatever it is given. */
  datatype UserEvent = UserEvent(operation: Option<string>, email: Option<string>, username: Option<string>, language: Option<string>)

  const CREATE: string := "CREATE"
  const DELETE: string := "DELETE"

  /** UserEvent.create(email, username, language). */
  function Create(email: Option<string>, username: Option<string>, language: Option<string>): UserEvent {
    UserEvent(Some(CREATE), email, username, language)
  }

  /** UserEvent.delete(email, username, language). */
  function Delete(email: Option<string>, username: Option<string>, language: Option<string>): UserEvent {
    UserEvent(Some(DELETE), email, username, language)
  }

  /** UserEvent.create(email, username): English. */
  function CreateInEnglish(email: Option<string>, username: Option<string>): UserEvent {
    UserEvent(Some(CREATE), email, username, Some("en"))
  }

  /** UserEvent.delete(email, username): English. */
  function DeleteInEnglish(email: Option<string>, username: Option<string>): UserEvent {
    UserEvent(Some(DELETE), email, username, Some("en"))
  }

  /**
    * The factories keep the email, username and language they are given, nulls included, and differ
    * only in the operation; the two-argument forms are the three-argument ones with language "en".
    */
  lemma FactoriesKeepFields(email: Option<string>, username: Option<string>, language: Option<string>)
    ensures var c := Create(email, username, language);
      c.operation == Some(CREATE) && c.email == email && c.username == username && c.language == language
    ensures Delete(email, username, language) == Create(email, username, language).(operation := Some(DELETE))
    ensures Create(email, username, language) != Delete(email, username, language)
    ensures CreateInEnglish(email, username) == Create(email, username, Some("en"))
    ensures DeleteInEnglish(email, username) == Delete(email, username, Some("en"))
  {
  }
}
