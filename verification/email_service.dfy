/**
  * EmailService: turn a user event, or a direct request, into at most one mail, with the texts
  * looked up through the message service and the mail handed to an abstract sender.
  */
module Notifications {
  import opened Wrappers
  import opened Strings
  import opened Messages
  import opened Events

  /** The configuration values: app.email.enabled, test-mode, default-locale and from-address. */
  datatype MailSettings = MailSettings(emailEnabled: bool, testMode: bool, defaultLocale: string, fromAddress: string)

  /** A mail as handed to the sender. */
  datatype Mail = Mail(from: string, to: string, subject: string, text: string)

  /** The mail sender: true when it accepts the mail, false when it throws. */
  type MailSender = Mail -> bool

  /** The arguments of one sendEmail(to, subject, text, lang) call. */
  datatype SendRequest = SendRequest(to: Option<string>, subject: string, text: string, lang: string)

  /** What one sendEmail call ends in. */
  datatype Outcome = Skipped | Delivered(mail: Mail) | Failed(failure: Failure)

  const SUBJECT_NOTIFICATION: string := "email.subject.notification"
  const TEXT_CREATE: string := "email.welcome.create"
  const TEXT_DELETE: string := "email.welcome.delete"
  const TEXT_GENERIC: string := "email.welcome.generic"
  const SUBJECT_WELCOME: string := "email.subject.welcome"
  const TEXT_WELCOME: string := "email.direct.welcome"
  const SUBJECT_ACCOUNT_DELETED: string := "email.subject.account_deleted"
  const TEXT_ACCOUNT_DELETED: string := "email.direct.account_deleted"
  const DEFAULT_USERNAME: string := "User"

  /** The two operation names are already upper case. */
  lemma OperationNamesAreUpperCase()
    ensures forall i :: 0 <= i < |CREATE| ==> UpperChar(CREATE[i]) == CREATE[i]
    ensures forall i :: 0 <= i < |DELETE| ==> UpperChar(DELETE[i]) == DELETE[i]
  {
  }

  /** isSupportedEventType: the upper-cased operation is CREATE or DELETE; null is unsupported. */
  function IsSupportedEventType(operation: Option<string>): (b: bool)
    ensures b <==> operation.Some? && (EqualsIgnoreCase(operation.value, CREATE) || EqualsIgnoreCase(operation.value, DELETE))
  {
    if operation.None? then false
    else
      OperationNamesAreUpperCase();
      UpperEqualsIffIgnoreCase(operation.value, CREATE);
      UpperEqualsIffIgnoreCase(operation.value, DELETE);
      var upper := ToUpper(operation.value);
      upper == CREATE || upper == DELETE
  }

  /** The text key the switch in generateEmailText picks for an operation. */
  function TextKey(operation: string): (key: string)
    ensures EqualsIgnoreCase(operation, CREATE) ==> key == TEXT_CREATE
    ensures EqualsIgnoreCase(operation, DELETE) ==> key == TEXT_DELETE
    ensures !EqualsIgnoreCase(operation, CREATE) && !EqualsIgnoreCase(operation, DELETE) ==> key == TEXT_GENERIC
  {
    OperationNamesAreUpperCase();
    UpperEqualsIffIgnoreCase(operation, CREATE);
    UpperEqualsIffIgnoreCase(operation, DELETE);
    var upper := ToUpper(operation);
    if upper == CREATE then TEXT_CREATE
    else if upper == DELETE then TEXT_DELETE
    else TEXT_GENERIC
  }

  /** A null username is greeted as "User"; any other, the empty one included, as it is. */
  function Greeting(username: Option<string>): string {
    username.GetOr(DEFAULT_USERNAME)
  }

  /**
    * generateEmailText: the operation is dereferenced, so a null one fails; otherwise the create,
    * delete or generic text is looked up, chosen ignoring case, with the username or "User" as argument.
    */
  function GenerateEmailText(source: MessageSource, event: UserEvent, locale: Locale): (r: Result<string>)
    ensures event.operation.None? ==> r == Err(NullDereference)
    ensures event.operation.Some? && EqualsIgnoreCase(event.operation.value, CREATE) ==>
              r == GetMessage(source, Some(TEXT_CREATE), Some([event.username.GetOr(DEFAULT_USERNAME)]), Some(locale))
    ensures event.operation.Some? && EqualsIgnoreCase(event.operation.value, DELETE) ==>
              r == GetMessage(source, Some(TEXT_DELETE), Some([event.username.GetOr(DEFAULT_USERNAME)]), Some(locale))
    ensures event.operation.Some? && !EqualsIgnoreCase(event.operation.value, CREATE) && !EqualsIgnoreCase(event.operation.value, DELETE) ==>
              r == GetMessage(source, Some(TEXT_GENERIC), Some([event.username.GetOr(DEFAULT_USERNAME)]), Some(locale))
  {
    if event.operation.None? then Err(NullDereference)
    else GetMessage(source, Some(TextKey(event.operation.value)), Some([Greeting(event.username)]), Some(locale))
  }

  /** The language of an event: its own, or the configured default. */
  function EventLanguage(settings: MailSettings, event: UserEvent): string {
    event.language.GetOr(settings.defaultLocale)
  }

  /**
    * The decision part of handleUserEvent: nothing for a null or unsupported event, otherwise the
    * sendEmail call it makes, or the failure of a message lookup.
    */
  function PlanUserEvent(settings: MailSettings, source: MessageSource, event: Option<UserEvent>): (r: Result<Option<SendRequest>>)
    ensures event.None? ==> r == Ok(None)
    ensures event.Some? && !IsSupportedEventType(event.value.operation) ==> r == Ok(None)
    ensures r.Ok? && r.value.Some? ==>
              && event.Some? && IsSupportedEventType(event.value.operation)
              && r.value.value.to == event.value.email
              && r.value.value.lang == EventLanguage(settings, event.value)
  {
    if event.None? then Ok(None)
    else
      var e := event.value;
      var lang := EventLanguage(settings, e);
      var locale := ResolveLocale(Some(lang));
      if !IsSupportedEventType(e.operation) then Ok(None)
      else
        match GetMessageFor(source, Some(SUBJECT_NOTIFICATION), Some(locale))
        case Err(f) => Err(f)
        case Ok(subject) =>
          match GenerateEmailText(source, e, locale)
          case Err(f) => Err(f)
          case Ok(text) => Ok(Some(SendRequest(e.email, subject, text, lang)))
  }

  /**
    * The decision part of sendWelcomeEmail and sendAccountDeletedEmail: the language falls back to
    * the default, the username to "User", and the texts are looked up under the given keys.
    */
  function PlanDirect(settings: MailSettings, source: MessageSource, email: Option<string>, username: Option<string>,
                      lang: Option<string>, subjectKey: string, textKey: string): (r: Result<SendRequest>)
    // a send is requested exactly when both lookups succeed; otherwise the first failing lookup's failure escapes
    ensures var locale := ResolveLocale(Some(lang.GetOr(settings.defaultLocale)));
      var subject := GetMessage(source, Some(subjectKey), None, Some(locale));
      var text := GetMessage(source, Some(textKey), Some([Greeting(username)]), Some(locale));
      && (r.Ok? <==> subject.Ok? && text.Ok?)
      && (subject.Err? ==> r == Err(subject.failure))
      && (subject.Ok? && text.Err? ==> r == Err(text.failure))
    ensures r.Ok? ==> r.value.to == email && r.value.lang == lang.GetOr(settings.defaultLocale)
    ensures r.Ok? ==>
              var locale := ResolveLocale(Some(lang.GetOr(settings.defaultLocale)));
              && Ok(r.value.subject) == GetMessage(source, Some(subjectKey), None, Some(locale))
              && Ok(r.value.text) == GetMessage(source, Some(textKey), Some([Greeting(username)]), Some(locale))
  {
    var resolvedLang := lang.GetOr(settings.defaultLocale);
    var locale := ResolveLocale(Some(resolvedLang));
    match GetMessageFor(source, Some(subjectKey), Some(locale))
    case Err(f) => Err(f)
    case Ok(subject) =>
      match GetMessage(source, Some(textKey), Some([Greeting(username)]), Some(locale))
      case Err(f) => Err(f)
      case Ok(text) => Ok(SendRequest(email, subject, text, resolvedLang))
  }

  /**
    * sendEmail: disabled sending is checked first, then test mode; otherwise the mail is built and
    * handed to the sender, and a null address or a refusal becomes "Failed to send email to: <to>".
    */
  function Dispatch(settings: MailSettings, sender: MailSender, request: SendRequest): (o: Outcome)
    ensures !settings.emailEnabled || settings.testMode <==> o.Skipped?
    ensures o.Delivered? ==>
              && request.to == Some(o.mail.to)
              && o.mail.from == settings.fromAddress && o.mail.subject == request.subject && o.mail.text == request.text
              && sender(o.mail)
    ensures o.Failed? ==> o.failure == Runtime("Failed to send email to: " + NullableText(request.to))
  {
    if !settings.emailEnabled then Skipped
    else if settings.testMode then Skipped
    else if request.to.None? then Failed(Runtime("Failed to send email to: " + NullableText(request.to)))
    else
      var mail := Mail(settings.fromAddress, request.to.value, request.subject, request.text);
      if sender(mail) then Delivered(mail)
      else Failed(Runtime("Failed to send email to: " + request.to.value))
  }

  /** With sending on, a request with an address is delivered exactly when the sender accepts the mail. */
  lemma DeliveredIffAccepted(settings: MailSettings, sender: MailSender, request: SendRequest)
    requires settings.emailEnabled && !settings.testMode && request.to.Some?
    ensures Dispatch(settings, sender, request).Delivered? <==>
              sender(Mail(settings.fromAddress, request.to.value, request.subject, request.text))
  {
  }

  /** A direct request as a plan that always sends. */
  function AsPlan(request: Result<SendRequest>): Result<Option<SendRequest>> {
    match request
    case Err(f) => Err(f)
    case Ok(r) => Ok(Some(r))
  }

  /** The result and the mails sent when a plan is carried out: at most one mail. */
  function Perform(settings: MailSettings, sender: MailSender, plan: Result<Option<SendRequest>>): (r: (Result<()>, seq<Mail>))
    ensures |r.1| <= 1
    ensures plan.Err? ==> r == (Err(plan.failure), [])
    ensures plan == Ok(None) ==> r == (Ok(()), [])
    ensures |r.1| == 1 ==> plan.Ok? && plan.value.Some? && Dispatch(settings, sender, plan.value.value) == Delivered(r.1[0])
    ensures r.0.Err? && plan.Ok? ==> plan.value.Some? && Dispatch(settings, sender, plan.value.value).Failed?
  {
    match plan
    case Err(f) => (Err(f), [])
    case Ok(None) => (Ok(()), [])
    case Ok(Some(request)) =>
      match Dispatch(settings, sender, request)
      case Skipped => (Ok(()), [])
      case Delivered(mail) => (Ok(()), [mail])
      case Failed(f) => (Err(f), [])
  }

  /** A null event makes no lookups (the message source does not matter) and sends nothing. */
  lemma NullEventSendsNothing(settings: MailSettings, sender: MailSender, first: MessageSource, second: MessageSource)
    ensures PlanUserEvent(settings, first, None) == PlanUserEvent(settings, second, None)
    ensures Perform(settings, sender, PlanUserEvent(settings, first, None)) == (Ok(()), [])
  {
  }

  /** An unsupported event makes no text lookup (the message source does not matter) and sends nothing. */
  lemma UnsupportedEventSendsNothing(settings: MailSettings, sender: MailSender, first: MessageSource, second: MessageSource, event: UserEvent)
    requires !IsSupportedEventType(event.operation)
    ensures PlanUserEvent(settings, first, Some(event)) == PlanUserEvent(settings, second, Some(event))
    ensures Perform(settings, sender, PlanUserEvent(settings, first, Some(event))) == (Ok(()), [])
  {
  }

  /**
    * A supported event is turned into one sendEmail call to the event's address, in the event's
    * (unresolved) language, with the notification subject and the operation's text for the greeting,
    * both looked up in the resolved locale.
    */
  lemma SupportedEventRequest(settings: MailSettings, source: MessageSource, event: UserEvent)
    requires IsSupportedEventType(event.operation)
    ensures var locale := ResolveLocale(Some(EventLanguage(settings, event)));
      var subject := GetMessage(source, Some(SUBJECT_NOTIFICATION), None, Some(locale));
      var text := GetMessage(source, Some(TextKey(event.operation.value)), Some([Greeting(event.username)]), Some(locale));
      && (subject.Ok? && text.Ok? ==>
            PlanUserEvent(settings, source, Some(event)) ==
              Ok(Some(SendRequest(event.email, subject.value, text.value, EventLanguage(settings, event)))))
      && (subject.Err? ==> PlanUserEvent(settings, source, Some(event)) == Err(subject.failure))
      && (subject.Ok? && text.Err? ==> PlanUserEvent(settings, source, Some(event)) == Err(text.failure))
  {
  }

  /** The events the user service publishes are supported, and pick the create and delete texts. */
  lemma FactoryEventsAreSupported(email: Option<string>, username: Option<string>, language: Option<string>)
    ensures IsSupportedEventType(Events.Create(email, username, language).operation)
    ensures IsSupportedEventType(Events.Delete(email, username, language).operation)
    ensures TextKey(CREATE) == TEXT_CREATE && TextKey(DELETE) == TEXT_DELETE
  {
    assert EqualsIgnoreCase(CREATE, CREATE);
    assert EqualsIgnoreCase(DELETE, DELETE);
  }

  /** Operations are compared ignoring case, so "create" is sent like "CREATE", while "UPDATE" is not sent. */
  lemma OperationCaseIsIgnored()
    ensures IsSupportedEventType(Some("create"))
    ensures !IsSupportedEventType(Some("UPDATE"))
    ensures !IsSupportedEventType(None)
  {
    assert EqualsIgnoreCase("create", CREATE) by {
      assert forall i :: 0 <= i < 6 ==> UpperChar("create"[i]) == UpperChar(CREATE[i]);
    }
    assert !EqualsIgnoreCase("UPDATE", CREATE) by {
      assert UpperChar("UPDATE"[0]) != UpperChar(CREATE[0]);
    }
    assert !EqualsIgnoreCase("UPDATE", DELETE) by {
      assert UpperChar("UPDATE"[0]) != UpperChar(DELETE[0]);
    }
  }

  /** Disabled sending is checked before test mode and skips everything, whatever the request. */
  lemma DisabledSendsNothing(settings: MailSettings, sender: MailSender, request: SendRequest)
    requires !settings.emailEnabled
    ensures Dispatch(settings, sender, request) == Skipped
    ensures Perform(settings, sender, Ok(Some(request))) == (Ok(()), [])
  {
  }

  /** A null username is greeted as "User", an empty one stays empty. */
  lemma GreetingDefaults()
    ensures Greeting(None) == DEFAULT_USERNAME
    ensures Greeting(Some("")) == ""
  {
  }

  /** The service object: configuration, collaborators, and the log of mails the sender accepted. */
  class EmailService {
    const settings: MailSettings
    const mailSender: MailSender
    const messageSource: MessageSource
    /** Every mail the sender has accepted, in order. */
    var outbox: seq<Mail>

    constructor (settings: MailSettings, mailSender: MailSender, messageSource: MessageSource)
      ensures this.settings == settings && this.mailSender == mailSender && this.messageSource == messageSource
      ensures outbox == []
    {
      this.settings := settings;
      this.mailSender := mailSender;
      this.messageSource := messageSource;
      outbox := [];
    }

    method SendEmail(to: Option<string>, subject: string, text: string, lang: string) returns (r: Result<()>)
      modifies this
      ensures var (result, sent) := Perform(settings, mailSender, Ok(Some(SendRequest(to, subject, text, lang))));
        r == result && outbox == old(outbox) + sent
    {
      if !settings.emailEnabled {
        return Ok(());
      }
      if settings.testMode {
        return Ok(());
      }
      if to.None? {
        return Err(Runtime("Failed to send email to: " + NullableText(to)));
      }
      var mail := Mail(settings.fromAddress, to.value, subject, text);
      if !mailSender(mail) {
        return Err(Runtime("Failed to send email to: " + to.value));
      }
      outbox := outbox + [mail];
      r := Ok(());
    }

    /** sendEmail(to, subject, text): the default language. */
    method SendEmailInDefaultLanguage(to: Option<string>, subject: string, text: string) returns (r: Result<()>)
      modifies this
      ensures var (result, sent) := Perform(settings, mailSender, Ok(Some(SendRequest(to, subject, text, settings.defaultLocale))));
        r == result && outbox == old(outbox) + sent
    {
      r := SendEmail(to, subject, text, settings.defaultLocale);
    }

    method HandleUserEvent(event: Option<UserEvent>) returns (r: Result<()>)
      modifies this
      ensures var (result, sent) := Perform(settings, mailSender, PlanUserEvent(settings, messageSource, event));
        r == result && outbox == old(outbox) + sent
    {
      var plan := PlanUserEvent(settings, messageSource, event);
      if plan.Err? {
        return Err(plan.failure);
      }
      if plan.value.None? {
        return Ok(());
      }
      var request := plan.value.value;
      r := SendEmail(request.to, request.subject, request.text, request.lang);
    }

    method SendWelcomeEmail(email: Option<string>, username: Option<string>, lang: Option<string>) returns (r: Result<()>)
      modifies this
      ensures var (result, sent) := Perform(settings, mailSender, AsPlan(PlanDirect(settings, messageSource, email, username, lang, SUBJECT_WELCOME, TEXT_WELCOME)));
        r == result && outbox == old(outbox) + sent
    {
      var plan := PlanDirect(settings, messageSource, email, username, lang, SUBJECT_WELCOME, TEXT_WELCOME);
      if plan.Err? {
        return Err(plan.failure);
      }
      r := SendEmail(plan.value.to, plan.value.subject, plan.value.text, plan.value.lang);
    }

    method SendAccountDeletedEmail(email: Option<string>, username: Option<string>, lang: Option<string>) returns (r: Result<()>)
      modifies this
      ensures var (result, sent) := Perform(settings, mailSender, AsPlan(PlanDirect(settings, messageSource, email, username, lang, SUBJECT_ACCOUNT_DELETED, TEXT_ACCOUNT_DELETED)));
        r == result && outbox == old(outbox) + sent
    {
      var plan := PlanDirect(settings, messageSource, email, username, lang, SUBJECT_ACCOUNT_DELETED, TEXT_ACCOUNT_DELETED);
      if plan.Err? {
        return Err(plan.failure);
      }
      r := SendEmail(plan.value.to, plan.value.subject, plan.value.text, plan.value.lang);
    }
  }
}
