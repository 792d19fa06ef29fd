# User service and notification service, modelled in Dafny

This project models the core of a two-service Java system.

**User service.** A user management service built as a clean architecture:
- the `Email` and `User` domain objects and the `UserRepository` port;
- six use cases (create, get by id, get all, update, delete, get by email);
- the `UserService` facade that wires them to one repository;
- the `UserMapper` that translates between the domain `User` and its persistence entity.

**Notification service.** It receives `UserEvent` messages and sends mails:
- `MessageService` resolves a language tag to a supported locale and looks texts up, with fallbacks;
- `EmailService` turns an event, or a direct request, into at most one mail.

How the Java program is represented:
- Java `null` is `Option.None`.
- A thrown exception is a `Result.Err` whose `Failure` names the exception and its message:
  - `NullPointer(msg)` for `Objects.requireNonNull`;
  - `NullDereference` for an implicit dereference of null;
  - `IllegalArgument(msg)` and `Runtime(msg)`;
  - `MessageSourceError(code)` for an exception of the message source that escapes.

**The repository.** It is an in-memory store:
- `Repository.Store` is the state, a map from id to `User` plus the next id to hand out.
- It has finder functions and write transitions.
- The class `InMemoryUserRepository` keeps that state in fields.
- Its `Save`, `Update` and `Delete` methods are proved against the transitions.

**The use cases.** Each is a specification function `Run(store, input)` that returns an `Execution`:
- the result;
- the sequence of repository calls made, so properties such as "update is never called" can be stated;
- the store afterwards, proved equal to replaying those calls.

Each use case is also a class holding its repository. The writing use cases have methods proved against `Run`.

**The notification service** is stated the same way:
- The Spring `MessageSource` and the `JavaMailSender` are function-typed parameters.
- The `EmailService` class records every mail the sender accepted in its `outbox`.

**Where the code and its unit tests disagree, the model follows the code.** Each divergence is a lemma:
- The email pattern accepts "invalid@example" and "invalid@.com", which `EmailTest.java:35-36` lists as invalid (`Emails.PatternAcceptsUnstructuredDomains`).
- Update calls `existsByEmail` even when the email is unchanged, which `UpdateUserUseCaseTest.java:75` says never happens (`UpdateUser.DuplicateIffChangedAndTaken`).
- Update has no id guard, so a negative id fails as "User not found with ID: …" rather than "Invalid user ID" (`UpdateUser.UnknownIdIsNotFound`). A null id fails the same way in the model, whose store answers empty for it; see "## Left out".
- Update's duplicate-email failure reads "User with email <email> already exists" (`UpdateUserUseCase.java:42`), not the "User with this email already exists" that `UpdateUserUseCaseTest.java:95` expects (`UpdateUser.DuplicateMessageNamesTheEmail`).
- Update dereferences `createdAt` without a null check, so a user without one is written and the call then fails (`UpdateUser.MissingCreatedAtFailsAfterWrite`).

## Model

| member | source | states |
|---|---|---|
| Strings.Trim | src/main/java/com/userservice/domain/model/User.java:28 | `String.trim()`: the result is the input with exactly its leading and trailing characters at or below U+0020 removed: a slice whose cut-off prefix and suffix are all such characters, and which neither starts nor ends with one |
| Strings.BlankIffAllTrimmable | src/main/java/com/userservice/domain/model/User.java:28 | `trim().isEmpty()` holds exactly when every character is at or below U+0020 |
| Strings.ToUpper | notification-service/src/main/java/com/notificationservice/application/service/EmailService.java:112 | `toUpperCase()` keeps the length and upper-cases each character |
| Strings.UpperEqualsIffIgnoreCase | notification-service/src/main/java/com/notificationservice/application/service/EmailService.java:112-113 | comparing the upper-cased operation with an upper-case constant is a case-insensitive comparison |
| Strings.StringHash | src/main/java/com/userservice/domain/model/Email.java:36-38 | `String.hashCode()` always lies in the 32-bit int range |
| Strings.SingleFieldHash | src/main/java/com/userservice/domain/model/Email.java:36-38 | `Objects.hash` of one value always lies in the 32-bit int range |
| Emails.IsValidMatchesPattern | src/main/java/com/userservice/domain/model/Email.java:7-8 | the executable matcher accepts exactly the strings of the form `[A-Za-z0-9+_.-]+@(.+)` with no line terminator after the `@` |
| Emails.NewEmail | src/main/java/com/userservice/domain/model/Email.java:12-17 | null fails with "Email cannot be null" before the pattern is tried; a mismatch fails with "Invalid email format: <value>"; success keeps the value verbatim, exactly for matching strings |
| Emails.EqualsIsValueEquality | src/main/java/com/userservice/domain/model/Email.java:27-38 | equals is equality of the strings, and equal emails hash alike |
| Emails.EqualsIsCaseSensitive | src/main/java/com/userservice/domain/model/Email.java:32 | addresses differing only in case are different emails |
| Emails.AcceptsSplit | src/main/java/com/userservice/domain/model/Email.java:7-8 | a run of local characters, `@`, and a domain without line terminators is accepted |
| Emails.RejectsWithoutAt | src/main/java/com/userservice/domain/model/Email.java:14-16 | a string made only of local characters is refused |
| Emails.RejectsAddressWithoutAt | src/test/java/com/userservice/domain/model/EmailTest.java:32 | "invalid-email" is refused |
| Emails.RejectsEmptyDomain | src/test/java/com/userservice/domain/model/EmailTest.java:33 | "invalid@" is refused |
| Emails.RejectsEmptyLocalPart | src/main/java/com/userservice/domain/model/Email.java:7-8 | "@example.com" is refused |
| Emails.AcceptsTagAndSubDomain | src/test/java/com/userservice/domain/model/EmailTest.java:48-49 | "valid+tag@example.com" and "valid@sub.example.com" are accepted unchanged |
| Emails.PatternAcceptsUnstructuredDomains | src/test/java/com/userservice/domain/model/EmailTest.java:35-36 | the pattern accepts "invalid@example", "invalid@.com" and "a@b@c", though the test expects the first two to be refused |
| Users.NewUser | src/main/java/com/userservice/domain/model/User.java:17-34 | name is null-checked, then email, then a blank name and then a negative age are refused, each with its message; success exactly when all four rules hold, and the user keeps every argument |
| Users.NewTransientUser | src/main/java/com/userservice/domain/model/User.java:13-15 | the three-argument constructor gives a valid user with neither id nor creation time, holding the given name, email and age |
| Users.AdultBoundary | src/main/java/com/userservice/domain/model/User.java:42-44 | age 18 is adult, 17 is not, an unknown age is not |
| Users.Update | src/main/java/com/userservice/domain/model/User.java:46-48 | a successful update keeps the id and creation time and takes the new name, email and age |
| Users.UpdateIsFreshUserWithOldIdentity | src/main/java/com/userservice/domain/model/User.java:46-48 | update fails exactly when the fresh constructor fails, with the same exception; otherwise it gives the fresh user with the old id and creation time |
| Users.EqualityIsByEmailOnly | src/main/java/com/userservice/domain/model/User.java:50-61 | users are equal exactly when their emails are, and users with the same email hash alike |
| Repository.FirstWithEmail | src/main/java/com/userservice/infrastructure/persistence/UserRepositoryImpl.java:62-84 | the lookup by email answers a listed user holding the email, and answers nothing only when no listed user holds it |
| Repository.FindAllIsExactlyStored | src/main/java/com/userservice/domain/repository/UserRepository.java:11 | findAll lists exactly the stored users, each under its own id |
| Repository.FindAllIsOrderedById | src/main/java/com/userservice/domain/repository/UserRepository.java:11 | findAll has one entry per stored user; the in-memory store lists them by ascending id, an order the interface leaves open (see "## Left out") |
| Repository.ExistsIffFindByEmailPresent | src/main/java/com/userservice/infrastructure/persistence/UserRepositoryImpl.java:168-176 | existsByEmail(e) is exactly findByEmail(e).isPresent() |
| Repository.FindByEmailFindsOwner | src/main/java/com/userservice/domain/repository/UserRepository.java:12 | with unique emails, findByEmail finds the one user holding the email |
| Repository.SaveStoresUnderFreshId | user-service/src/main/java/com/userservice/infrastructure/persistence/springdata/SpringDataUserRepositoryImpl.java:70-81 | save stores the user under a fresh id with the clock's creation time, returns that stored user, and keeps every other record |
| Repository.SaveTakesOneEmail | user-service/src/main/java/com/userservice/infrastructure/persistence/springdata/SpringDataUserRepositoryImpl.java:70-81 | after save an email is taken exactly when it was taken before or is the saved user's |
| Repository.SaveKeepsInvariants | user-service/src/main/java/com/userservice/infrastructure/persistence/springdata/SpringDataUserRepositoryImpl.java:70-81 | save keeps the store valid and its records stamped, and keeps emails unique when the saved email was free |
| Repository.UpdateKeepsValid | user-service/src/main/java/com/userservice/infrastructure/persistence/springdata/SpringDataUserRepositoryImpl.java:84-98 | update of a stored id with a valid user keeps the store valid |
| Repository.UpdateKeepsCount | user-service/src/main/java/com/userservice/infrastructure/persistence/springdata/SpringDataUserRepositoryImpl.java:84-98 | update of a stored id keeps the number of records |
| Repository.UpdateTouchesOneRecord | user-service/src/main/java/com/userservice/infrastructure/persistence/springdata/SpringDataUserRepositoryImpl.java:84-98 | update of a stored id stores the user under it and leaves every other id's record as it was |
| Repository.UpdateReplacesRecord | user-service/src/main/java/com/userservice/infrastructure/persistence/springdata/SpringDataUserRepositoryImpl.java:84-98 | update of a stored id succeeds, replaces that record and no other, and keeps the count |
| Repository.UpdateMovesEmail | user-service/src/main/java/com/userservice/infrastructure/persistence/springdata/SpringDataUserRepositoryImpl.java:84-98 | after an update the new email is taken, and every other email is taken exactly when a record other than the updated one holds it, so a replaced email is freed unless another user has it |
| Repository.UpdateKeepsOtherEmail | user-service/src/main/java/com/userservice/infrastructure/persistence/springdata/SpringDataUserRepositoryImpl.java:84-98 | for one email other than the new one: taken after the update exactly when a record other than the updated one holds it |
| Repository.UpdateFreesReplacedEmail | user-service/src/main/java/com/userservice/infrastructure/persistence/springdata/SpringDataUserRepositoryImpl.java:84-98 | with unique emails, an update that changes the email leaves the replaced email held by nobody |
| Repository.UpdateFindsByNewEmail | user-service/src/main/java/com/userservice/infrastructure/persistence/springdata/SpringDataUserRepositoryImpl.java:84-98 | when no other user holds the new email, findByEmail on it finds the updated user afterwards, and findByEmail on a replaced email finds nobody |
| Repository.UpdateOfUnknownIdFails | user-service/src/main/java/com/userservice/infrastructure/persistence/springdata/SpringDataUserRepositoryImpl.java:89-91 | update of an absent id fails with "User not found with ID: <id>" and changes nothing; the model answers a null id the same way, which these lines do not (see "## Left out") |
| Repository.UpdateKeepsInvariants | user-service/src/main/java/com/userservice/infrastructure/persistence/springdata/SpringDataUserRepositoryImpl.java:84-98 | update keeps the records stamped when the new user is stamped, and keeps emails unique when the new email is the user's own or free |
| Repository.DeleteRemovesOnlyThatId | user-service/src/main/java/com/userservice/infrastructure/persistence/springdata/SpringDataUserRepositoryImpl.java:101-111 | delete removes that id and no other record, the count drops by one when it was present, and an absent id changes nothing |
| Repository.DeleteKeepsInvariants | user-service/src/main/java/com/userservice/infrastructure/persistence/springdata/SpringDataUserRepositoryImpl.java:101-111 | delete keeps the store valid, its emails unique and its records stamped |
| Repository.ReadOnlyCallsChangeNothing | src/main/java/com/userservice/domain/repository/UserRepository.java:10-16 | replaying only finder calls leaves the store as it was |
| Repository.ReplayReadsThen | src/main/java/com/userservice/domain/repository/UserRepository.java:10-16 | finder calls followed by one call have the effect of that call alone |
| Repository.InMemoryUserRepository.constructor | src/main/java/com/userservice/domain/repository/UserRepository.java:9-17 | a new repository is empty and valid, and hands out ids from 1 |
| Repository.InMemoryUserRepository.Save | user-service/src/main/java/com/userservice/infrastructure/persistence/springdata/SpringDataUserRepositoryImpl.java:70-81 | the returned user and new state are those of the store's save transition |
| Repository.InMemoryUserRepository.Update | user-service/src/main/java/com/userservice/infrastructure/persistence/springdata/SpringDataUserRepositoryImpl.java:84-98 | the result and new state are those of the store's update transition |
| Repository.InMemoryUserRepository.Delete | user-service/src/main/java/com/userservice/infrastructure/persistence/springdata/SpringDataUserRepositoryImpl.java:101-111 | the new state is that of the store's delete transition |
| Dto.ToResponseDescribes | src/main/java/com/userservice/application/usecase/CreateUserUseCase.java:32-40 | the projection keeps id, name, email string, age and creation time, and two users project alike only when they are the same |
| CreateUser.Run | src/main/java/com/userservice/application/usecase/CreateUserUseCase.java:16-30 | the store afterwards is the replay of the calls made; a failure writes nothing; success exactly when the email parses, is not taken and the user is valid |
| CreateUser.BadEmailFailsFirst | src/main/java/com/userservice/application/usecase/CreateUserUseCase.java:17 | a null or malformed email fails with the Email exception before any repository call |
| CreateUser.TakenEmailFailsBeforeUserChecks | src/main/java/com/userservice/application/usecase/CreateUserUseCase.java:17-19 | a taken email fails with "User with this email already exists" after one existsByEmail call, whatever the name and age |
| CreateUser.InvalidUserFailsWithoutSave | src/main/java/com/userservice/application/usecase/CreateUserUseCase.java:21-25 | with a free email, a bad name or age fails with the User exception and save is never called |
| CreateUser.SuccessSavesOnce | src/main/java/com/userservice/application/usecase/CreateUserUseCase.java:27 | a success makes one check and one save of a transient user holding the request's name, email and age |
| CreateUser.SuccessResponse | src/main/java/com/userservice/application/usecase/CreateUserUseCase.java:27-29 | the response carries the fresh id, the request's name, email and age, and the save time |
| CreateUser.CreateAddsOneUser | src/main/java/com/userservice/application/usecase/CreateUserUseCase.java:16-30 | a success adds one user under a new id, whom the response describes, and keeps every earlier record |
| CreateUser.CreateKeepsInvariants | src/main/java/com/userservice/application/usecase/CreateUserUseCase.java:16-30 | create keeps the store valid, its emails unique and its records stamped |
| CreateUser.CreateUserUseCase.Execute | src/main/java/com/userservice/application/usecase/CreateUserUseCase.java:16-30 | the result and the repository's new state are those of `Run` |
| GetUserById.Run | src/main/java/com/userservice/application/usecase/GetUserByIdUseCase.java:16-33 | a null or non-positive id fails with "Invalid user ID" and no call; otherwise one findById, empty exactly when the id is absent, else a description of the stored user; nothing is written |
| GetUserByEmail.Run | user-service/src/main/java/com/userservice/application/usecase/GetUserByEmailUseCase.java:20-37 | nothing is written, only finder calls are made, and a found response holds exactly the input email |
| GetUserByEmail.ChecksBeforeLookup | user-service/src/main/java/com/userservice/application/usecase/GetUserByEmailUseCase.java:21-25 | null or blank input fails with "Email cannot be empty", a malformed one with "Invalid email format: <input>", both with no call; otherwise one findByEmail with the untrimmed input |
| GetUserByEmail.FindsTheOwner | user-service/src/main/java/com/userservice/application/usecase/GetUserByEmailUseCase.java:25-26 | a well-formed email finds something exactly when some user holds it, and with unique emails it is that user's description |
| GetAllUsers.Responses | src/main/java/com/userservice/application/usecase/GetAllUsersUseCase.java:19-21 | one response per user, each describing its user |
| GetAllUsers.Run | src/main/java/com/userservice/application/usecase/GetAllUsersUseCase.java:17-22 | one findAll call, no write, and one description per listed user in order |
| GetAllUsers.ListsEveryUserOnce | src/main/java/com/userservice/application/usecase/GetAllUsersUseCase.java:17-22 | every stored user is described exactly once, in the store's listing order (ascending id in the in-memory store); an empty store gives an empty list |
| UpdateUser.ToResponseOrFail | src/main/java/com/userservice/application/usecase/UpdateUserUseCase.java:46-54 | the projection fails with a null dereference exactly when the creation time is null, and otherwise describes the user |
| UpdateUser.Run | src/main/java/com/userservice/application/usecase/UpdateUserUseCase.java:16-30 | the store afterwards is the replay of the calls made |
| UpdateUser.LookupFirstAndFailuresWriteNothing | src/main/java/com/userservice/application/usecase/UpdateUserUseCase.java:17 | findById is always the first call, and every failure but the createdAt dereference leaves the store unchanged |
| UpdateUser.UnknownIdIsNotFound | src/main/java/com/userservice/application/usecase/UpdateUserUseCase.java:32-35 | an absent id, and in a valid store also a non-positive one, fails with "User not found with ID: <id>" after the lookup alone; so does a null id, because the in-memory store finds nothing for it (see "## Left out") |
| UpdateUser.MalformedEmailFailsAfterLookup | src/main/java/com/userservice/application/usecase/UpdateUserUseCase.java:18 | a malformed new email fails with the Email exception after the lookup and before any other call |
| UpdateUser.DuplicateIffChangedAndTaken | src/main/java/com/userservice/application/usecase/UpdateUserUseCase.java:37-44 | existsByEmail is always the second call; the duplicate failure occurs exactly when the email changed and is taken, so resubmitting one's own email never fails as a duplicate |
| UpdateUser.DuplicateMessageNamesTheEmail | src/main/java/com/userservice/application/usecase/UpdateUserUseCase.java:40-42 | the duplicate failure's message names the new email, "User with email <email> already exists", and so is never the "User with this email already exists" of src/test/java/com/userservice/application/usecase/UpdateUserUseCaseTest.java:95 |
| UpdateUser.InvalidFieldsWriteNothing | src/main/java/com/userservice/application/usecase/UpdateUserUseCase.java:22-25 | a bad name or age fails with the User exception and writes nothing |
| UpdateUser.UpdatedUser | src/main/java/com/userservice/application/usecase/UpdateUserUseCase.java:22-25 | the user written on the write path is valid |
| UpdateUser.WritePath | src/main/java/com/userservice/application/usecase/UpdateUserUseCase.java:16-30 | in a valid store the write path makes findById, existsByEmail and update, in that order, stores the updated user under its own id, and answers its projection |
| UpdateUser.OtherPathsWriteNothing | src/main/java/com/userservice/application/usecase/UpdateUserUseCase.java:16-30 | every path that does not reach the write fails without a null dereference and writes nothing |
| UpdateUser.SuccessWritesOnce | src/main/java/com/userservice/application/usecase/UpdateUserUseCase.java:22-29 | a success writes once: the existing user's id and creation time with the request's name, email and age, which the response describes and the store then holds |
| UpdateUser.MissingCreatedAtFailsAfterWrite | src/main/java/com/userservice/application/usecase/UpdateUserUseCase.java:52 | a user without a creation time is written and then the call fails with a null dereference |
| UpdateUser.StampedStoreNeverDereferencesNull | src/main/java/com/userservice/application/usecase/UpdateUserUseCase.java:52 | when every record is stamped, update never fails by null dereference and a failure writes nothing |
| UpdateUser.UpdateKeepsValidity | src/main/java/com/userservice/application/usecase/UpdateUserUseCase.java:16-30 | update keeps the store valid and its records stamped |
| UpdateUser.UpdateKeepsEmailsUnique | src/main/java/com/userservice/application/usecase/UpdateUserUseCase.java:37-44 | update keeps emails unique: the new email is the user's own or held by nobody |
| UpdateUser.UpdateUserUseCase.Execute | src/main/java/com/userservice/application/usecase/UpdateUserUseCase.java:16-30 | the result and the repository's new state are those of `Run` |
| DeleteUser.Run | src/main/java/com/userservice/application/usecase/DeleteUserUseCase.java:15-26 | a null or non-positive id fails with "Invalid user ID" and no call; an absent id answers false after the lookup alone; a present id answers true after the lookup and one delete |
| DeleteUser.DeleteRemovesOnlyThatUser | src/main/java/com/userservice/application/usecase/DeleteUserUseCase.java:20-25 | true means the id is gone, every other user is as before and the count dropped by one; any other answer leaves the store unchanged; validity, unique emails and stamps are kept |
| DeleteUser.DeleteUserUseCase.Execute | src/main/java/com/userservice/application/usecase/DeleteUserUseCase.java:15-26 | the result and the repository's new state are those of `Run` |
| UserServices.UserService.constructor | src/main/java/com/userservice/application/service/UserService.java:17-24 | the six use cases share the one repository the service is built with |
| UserServices.UserService.CreateUser | src/main/java/com/userservice/application/service/UserService.java:26-28 | delegates to the create use case: result and new state are those of its `Run` |
| UserServices.UserService.GetUserById | src/main/java/com/userservice/application/service/UserService.java:30-32 | delegates to the get-by-id use case, changing nothing |
| UserServices.UserService.GetAllUsers | src/main/java/com/userservice/application/service/UserService.java:34-36 | delegates to the get-all use case, changing nothing |
| UserServices.UserService.UpdateUser | src/main/java/com/userservice/application/service/UserService.java:38-40 | delegates to the update use case: result and new state are those of its `Run` |
| UserServices.UserService.DeleteUser | src/main/java/com/userservice/application/service/UserService.java:42-44 | delegates to the delete use case: result and new state are those of its `Run` |
| UserServices.UserService.GetUserByEmail | src/main/java/com/userservice/application/service/UserService.java:46-48 | delegates to the get-by-email use case, changing nothing |
| UserServices.CreateThenGetById | src/main/java/com/userservice/application/service/UserService.java:26-32 | getting by the id a create answered with gives back the same response |
| UserServices.DuplicateCreateKeepsCount | src/main/java/com/userservice/application/usecase/CreateUserUseCase.java:17-19 | a second create with a stored email fails as a duplicate and keeps the user count |
| UserServices.DistinctCreatesAddThatMany | src/main/java/com/userservice/application/usecase/CreateUserUseCase.java:16-30 | creates with acceptable, distinct, free emails add that many users and keep the store valid with unique emails |
| UserServices.GetAllEmailsDistinct | src/main/java/com/userservice/application/service/UserService.java:34-36 | with unique emails, getAll answers with one entry per user and pairwise distinct emails |
| UserServices.FullCycle | src/main/java/com/userservice/application/service/UserService.java:26-44 | create, read back, update, read back the new values, delete (true), then read nothing |
| Mapping.ToDomain | user-service/src/main/java/com/userservice/infrastructure/persistence/springdata/UserMapper.java:11-21 | null maps to null; the Email is built first and its exception wins, then the User's; a result is a valid user holding the entity's fields |
| Mapping.DomainRoundTrip | user-service/src/main/java/com/userservice/infrastructure/persistence/springdata/UserMapper.java:11-33 | every valid user, and null, survives toEntity then toDomain unchanged |
| Mapping.EntityRoundTrip | user-service/src/main/java/com/userservice/infrastructure/persistence/springdata/UserMapper.java:11-33 | every entity toDomain accepts is rebuilt exactly by toEntity |
| Mapping.AcceptsExactlyValidEntities | user-service/src/main/java/com/userservice/infrastructure/persistence/springdata/UserMapper.java:11-21 | an entity is accepted exactly when its email matches the pattern, its name is present and not blank, and its age is not negative |
| Events.FactoriesKeepFields | notification-service/src/main/java/com/notificationservice/domain/model/UserEvent.java:16-30 | the factories keep email, username and language, differ only in the operation, and the two-argument forms use "en" |
| Messages.FirstMatching | notification-service/src/main/java/com/notificationservice/application/service/MessageService.java:61-64 | a found locale is supported and has the language ignoring case; nothing is found exactly when no locale has it |
| Messages.FirstMatchingIsFirst | notification-service/src/main/java/com/notificationservice/application/service/MessageService.java:61-64 | findFirst answers the first locale of the language |
| Messages.ResolveLocale | notification-service/src/main/java/com/notificationservice/application/service/MessageService.java:56-65 | the result is always a supported locale, and null or "" gives English |
| Messages.SupportedLanguages | notification-service/src/main/java/com/notificationservice/application/service/MessageService.java:71-77 | a tag is supported exactly when it is en, ru or es ignoring case |
| Messages.ResolveAgreesWithSupported | notification-service/src/main/java/com/notificationservice/application/service/MessageService.java:56-77 | a supported tag resolves to a locale of that language, any other to English |
| Messages.TwoLetterIgnoreCase | notification-service/src/main/java/com/notificationservice/application/service/MessageService.java:62 | two-letter tags are equal ignoring case exactly when both letters are |
| Messages.ResolvesEachSupportedLanguage | notification-service/src/main/java/com/notificationservice/application/service/MessageService.java:19-23 | "ru" resolves to ru_RU, "ES" to es_ES, "fr" to English |
| Messages.GetMessage | notification-service/src/main/java/com/notificationservice/application/service/MessageService.java:25-46 | a null or blank code answers "Message not configured"; the only failure is the message source's error escaping for that code |
| Messages.BlankCodeConsultsNothing | notification-service/src/main/java/com/notificationservice/application/service/MessageService.java:26-29 | a null or blank code gives the same answer whatever the message source |
| Messages.NullLocaleIsEnglish | notification-service/src/main/java/com/notificationservice/application/service/MessageService.java:32 | a null locale is looked up as English |
| Messages.LookupOrder | notification-service/src/main/java/com/notificationservice/application/service/MessageService.java:33-41 | the locale's text wins, then the English text, then "Message not found: <code>" |
| Messages.OnlyRetryErrorEscapes | notification-service/src/main/java/com/notificationservice/application/service/MessageService.java:33-45 | a first-attempt error answers "Error retrieving message: <code>"; the call fails exactly when the message is missing and the English retry errs |
| Messages.MissingEnglishMessage | notification-service/src/main/java/com/notificationservice/application/service/MessageService.java:33-41 | a message missing in English is reported as "Message not found: <code>" |
| Messages.OverloadsPassNullArguments | notification-service/src/main/java/com/notificationservice/application/service/MessageService.java:48-54 | the short overloads pass null arguments, and English when no locale is given |
| Notifications.IsSupportedEventType | notification-service/src/main/java/com/notificationservice/application/service/EmailService.java:107-114 | an operation is supported exactly when it is present and equals CREATE or DELETE ignoring case |
| Notifications.TextKey | notification-service/src/main/java/com/notificationservice/application/service/EmailService.java:119-138 | CREATE picks the create text, DELETE the delete text, anything else the generic text, ignoring case |
| Notifications.GenerateEmailText | notification-service/src/main/java/com/notificationservice/application/service/EmailService.java:116-139 | a null operation fails by dereference; an operation equal to CREATE ignoring case gets the create text, one equal to DELETE the delete text, any other the generic text, each looked up with the username, or "User" for null, in the given locale |
| Notifications.PlanUserEvent | notification-service/src/main/java/com/notificationservice/application/service/EmailService.java:78-105 | a null or unsupported event sends nothing; a send goes to the event's address in the event's language or the default |
| Notifications.PlanDirect | notification-service/src/main/java/com/notificationservice/application/service/EmailService.java:141-177 | a direct mail goes to the given address, in the given language or the default, with subject and text looked up in the resolved locale; a send is planned exactly when both lookups succeed, and otherwise the subject's failure, or else the text's, escapes |
| Notifications.Dispatch | notification-service/src/main/java/com/notificationservice/application/service/EmailService.java:42-72 | disabled sending or test mode skips exactly; a delivered mail is from the configured address with the request's recipient, subject and text, and was accepted; a failure is "Failed to send email to: <to>" |
| Notifications.DeliveredIffAccepted | notification-service/src/main/java/com/notificationservice/application/service/EmailService.java:54-71 | with sending on, a mail with an address is delivered exactly when the sender accepts it |
| Notifications.Perform | notification-service/src/main/java/com/notificationservice/application/service/EmailService.java:78-105 | at most one mail is sent, only what dispatch delivered; a lookup failure sends nothing |
| Notifications.NullEventSendsNothing | notification-service/src/main/java/com/notificationservice/application/service/EmailService.java:79-82 | a null event consults no message and sends nothing |
| Notifications.UnsupportedEventSendsNothing | notification-service/src/main/java/com/notificationservice/application/service/EmailService.java:95-99 | an unsupported event consults no message and sends nothing |
| Notifications.SupportedEventRequest | notification-service/src/main/java/com/notificationservice/application/service/EmailService.java:84-104 | a supported event makes one send to its address, in its unresolved language, with the notification subject and the operation's text from the resolved locale, or fails with the lookup's failure |
| Notifications.FactoryEventsAreSupported | notification-service/src/main/java/com/notificationservice/domain/model/UserEvent.java:16-22 | events from the create and delete factories are supported and pick the create and delete texts |
| Notifications.OperationCaseIsIgnored | notification-service/src/main/java/com/notificationservice/application/service/EmailService.java:112-113 | "create" is supported, "UPDATE" and null are not |
| Notifications.DisabledSendsNothing | notification-service/src/main/java/com/notificationservice/application/service/EmailService.java:43-46 | disabled sending is checked before test mode and sends nothing |
| Notifications.GreetingDefaults | notification-service/src/main/java/com/notificationservice/application/service/EmailService.java:117 | a null username is greeted as "User", an empty one stays empty |
| Notifications.EmailService.SendEmail | notification-service/src/main/java/com/notificationservice/application/service/EmailService.java:42-72 | the result and the mails appended to the outbox are those of dispatching the request |
| Notifications.EmailService.SendEmailInDefaultLanguage | notification-service/src/main/java/com/notificationservice/application/service/EmailService.java:74-76 | as sendEmail with the configured default language |
| Notifications.EmailService.HandleUserEvent | notification-service/src/main/java/com/notificationservice/application/service/EmailService.java:78-105 | the result and the appended mails are those of the event's plan |
| Notifications.EmailService.SendWelcomeEmail | notification-service/src/main/java/com/notificationservice/application/service/EmailService.java:141-158 | the result and the appended mails are those of the welcome plan |
| Notifications.EmailService.SendAccountDeletedEmail | notification-service/src/main/java/com/notificationservice/application/service/EmailService.java:160-177 | the result and the appended mails are those of the account-deleted plan |

## Left out

- Logging is not modelled anywhere. Neither are the Russian log texts.
- Persistence is a map in memory:
  - Hibernate sessions, transactions and rollbacks, Spring Data JPA and the database are not modelled.
  - `UserEntity`, the JPA entity class, is not part of this model. Its shape is read off `UserMapper`.
- Save always assigns the next free id and stamps the record with the clock value `now`, which is a parameter. The model does not cover `@CreationTimestamp` and database sequences, or a save that carries an id.
- Repository.Update follows the Spring Data implementation and fails for an absent id. The Hibernate implementation's `merge` would insert instead.
- Repository.FirstWithEmail answers the lowest id when two users share an email. The implementations differ there. The Hibernate ones (`UserRepositoryImpl.java:71-83`, `HibernateUserRepositoryImpl.java`) catch the non-unique-result exception and answer empty, so their `existsByEmail` answers false. The Spring Data one throws. The use cases keep emails unique, so the case does not arise from them.
- The in-memory store fixes three behaviours that the repository contract leaves to the implementation:
  - `findAll` lists by ascending id. `UserRepository.java:11` promises no order, and the Hibernate query at `UserRepositoryImpl.java:46-49` has no ORDER BY.
  - `findById` of a null id answers empty, as the Hibernate catch at `UserRepositoryImpl.java:35-37` does. The Spring Data implementation passes null to `JpaRepository.findById`, which throws.
  - `update` of a user with a null id fails with "User not found with ID: null". In the Spring Data implementation, `existsById(null)` throws before that message is built.
- A database or transport failure inside the repository is not modelled. The catch-all `Optional.empty()` and `RuntimeException("Failed to … user")` paths of the Hibernate implementation are left out with it.
- The race between `existsByEmail` and `save` under concurrent requests is not modelled. Each use case runs alone on the store.
- `Long` and `Integer` are unbounded integers. Their overflow at the Java widths is not modelled.
- Strings.ToUpper and Strings.EqualsIgnoreCase fold ASCII letters only. Java's full Unicode case mapping, and the locale-sensitive `toUpperCase()`, are not modelled.
- Strings.StringHash hashes each character as one unit. Java hashes a character outside the Basic Multilingual Plane as its two UTF-16 code units.
- `LocalDateTime` is an opaque instant. Its `toString()` text in the response is not modelled: a response holds the instant itself.
- The controllers, the console application, `Main` and the configuration classes are not modelled. The same goes for the Kafka producer and consumer, the REST notification client, and the duplicate copy of `UserService` and `GetUserByIdUseCase` under `user-service/`.
- `@Retryable` on `sendEmail` is not modelled. A failure is reported after one attempt.
- MIME message construction, UTF-8 encoding and SMTP are not modelled. The sender is a function from a mail to accepted or refused. A `MessagingException` and any other exception both give the same failure, which matches the two catch blocks.
- The Spring `MessageSource` is a pure function of code, arguments and locale. Message formatting of the arguments happens inside it.
- The `locale == null` fallbacks in `handleUserEvent`, `sendWelcomeEmail` and `sendAccountDeletedEmail` are not modelled. `resolveLocale` never returns null (`Messages.ResolveLocale`), so those branches are dead.
- `getSupportedLocales()` is not modelled. It returns the constant `SUPPORTED_LOCALES`.
