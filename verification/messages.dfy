/**
  * MessageService: resolve a language tag against the supported locales, and look message texts up
  * with a fallback to English and then to a fixed text.
  */
module Messages {
  import opened Wrappers
  import opened Strings

  /** java.util.Locale, by language and country. */
  datatype Locale = Locale(language: string, country: string)

  const ENGLISH: Locale := Locale("en", "")

  const SUPPORTED_LOCALES: seq<Locale> := [ENGLISH, Locale("ru", "RU"), Locale("es", "ES")]

  /** `stream().filter(language equalsIgnoreCase lang).findFirst()`. */
  function FirstMatching(locales: seq<Locale>, lang: string): (r: Option<Locale>)
    ensures r.Some? ==> r.value in locales && EqualsIgnoreCase(r.value.language, lang)
    ensures r.None? <==> forall i :: 0 <= i < |locales| ==> !EqualsIgnoreCase(locales[i].language, lang)
  {
    if locales == [] then None
    else if EqualsIgnoreCase(locales[0].language, lang) then Some(locales[0])
    else FirstMatching(locales[1..], lang)
  }

  /** What findFirst finds is the first match: every locale before it has another language. */
  lemma {:induction false} FirstMatchingIsFirst(locales: seq<Locale>, lang: string, i: int)
    requires 0 <= i < |locales| && EqualsIgnoreCase(locales[i].language, lang)
    requires forall j :: 0 <= j < i ==> !EqualsIgnoreCase(locales[j].language, lang)
    ensures FirstMatching(locales, lang) == Some(locales[i])
  {
    if i > 0 {
      FirstMatchingIsFirst(locales[1..], lang, i - 1);
    }
  }

  /** `stream().anyMatch(language equalsIgnoreCase lang)`. */
  predicate AnyMatching(locales: seq<Locale>, lang: string) {
    exists i :: 0 <= i < |locales| && EqualsIgnoreCase(locales[i].language, lang)
  }

  /** resolveLocale: null and "" give English; otherwise the first supported locale of that language, else English. */
  function ResolveLocale(lang: Option<string>): (r: Locale)
    ensures r in SUPPORTED_LOCALES
    ensures lang.None? || lang.value == [] ==> r == ENGLISH
  {
    if lang.None? || lang.value == [] then ENGLISH
    else FirstMatching(SUPPORTED_LOCALES, lang.value).GetOr(ENGLISH)
  }

  /** isLocaleSupported: null and "" are not supported; otherwise some supported locale has that language. */
  predicate IsLocaleSupported(lang: Option<string>) {
    if lang.None? || lang.value == [] then false
    else AnyMatching(SUPPORTED_LOCALES, lang.value)
  }

  /** The supported languages are exactly en, ru and es, compared ignoring case. */
  lemma {:induction false} SupportedLanguages(lang: Option<string>)
    ensures IsLocaleSupported(lang) <==>
              lang.Some? && (EqualsIgnoreCase(lang.value, "en") || EqualsIgnoreCase(lang.value, "ru") || EqualsIgnoreCase(lang.value, "es"))
  {
    if lang.Some? {
      var l := lang.value;
      assert SUPPORTED_LOCALES[0].language == "en";
      assert SUPPORTED_LOCALES[1].language == "ru";
      assert SUPPORTED_LOCALES[2].language == "es";
      if l == [] {
        assert !EqualsIgnoreCase(l, "en") && !EqualsIgnoreCase(l, "ru") && !EqualsIgnoreCase(l, "es");
      }
    }
  }

  /**
    * The two agree: a supported language resolves to a locale of that language, anything else to
    * English.
    */
  lemma ResolveAgreesWithSupported(lang: Option<string>)
    ensures IsLocaleSupported(lang) ==> EqualsIgnoreCase(ResolveLocale(lang).language, lang.value)
    ensures !IsLocaleSupported(lang) ==> ResolveLocale(lang) == ENGLISH
  {
  }

  /** Case-insensitive comparison of two-letter tags, letter by letter. */
  lemma TwoLetterIgnoreCase(a: string, b: string)
    requires |a| == 2 && |b| == 2
    ensures EqualsIgnoreCase(a, b) <==> UpperChar(a[0]) == UpperChar(b[0]) && UpperChar(a[1]) == UpperChar(b[1])
  {
    if UpperChar(a[0]) == UpperChar(b[0]) && UpperChar(a[1]) == UpperChar(b[1]) {
      assert forall i :: 0 <= i < 2 ==> UpperChar(a[i]) == UpperChar(b[i]);
    }
  }

  /** Each supported language resolves to its own locale, whatever its case; others resolve to English. */
  lemma ResolvesEachSupportedLanguage()
    ensures ResolveLocale(Some("ru")) == Locale("ru", "RU")
    ensures ResolveLocale(Some("ES")) == Locale("es", "ES")
    ensures ResolveLocale(Some("fr")) == ENGLISH
  {
    TwoLetterIgnoreCase("en", "ru");
    TwoLetterIgnoreCase("ru", "ru");
    FirstMatchingIsFirst(SUPPORTED_LOCALES, "ru", 1);
    TwoLetterIgnoreCase("en", "ES");
    TwoLetterIgnoreCase("ru", "ES");
    TwoLetterIgnoreCase("es", "ES");
    FirstMatchingIsFirst(SUPPORTED_LOCALES, "ES", 2);
    TwoLetterIgnoreCase("en", "fr");
    TwoLetterIgnoreCase("ru", "fr");
    TwoLetterIgnoreCase("es", "fr");
  }

  /** What the underlying MessageSource does with one request. */
  datatype MessageLookup = Found(text: string) | NoSuchMessage | LookupError

  /** MessageSource.getMessage(code, args, locale), as a pure function of its request. */
  type MessageSource = (string, Option<seq<string>>, Locale) -> MessageLookup

  const NOT_CONFIGURED: string := "Message not configured"

  /**
    * getMessage(code, args, locale): a null or blank code answers "Message not configured"; a null
    * locale means English; a message missing in the locale is retried in English and then answered
    * with "Message not found: <code>"; any other error on the first attempt is answered with
    * "Error retrieving message: <code>", but an error on the English retry escapes the handler.
    */
  function GetMessage(source: MessageSource, code: Option<string>, args: Option<seq<string>>, locale: Option<Locale>): (r: Result<string>)
    ensures code.None? || IsBlank(code.value) ==> r == Ok(NOT_CONFIGURED)
    ensures r.Err? ==> r == Err(MessageSourceError(code.value))
  {
    if code.None? || IsBlank(code.value) then Ok(NOT_CONFIGURED)
    else
      match source(code.value, args, locale.GetOr(ENGLISH))
      case Found(text) => Ok(text)
      case LookupError => Ok("Error retrieving message: " + code.value)
      case NoSuchMessage =>
        match source(code.value, args, ENGLISH)
        case Found(text) => Ok(text)
        case NoSuchMessage => Ok("Message not found: " + code.value)
        case LookupError => Err(MessageSourceError(code.value))
  }

  /** A null or blank code is answered without consulting the message source at all. */
  lemma BlankCodeConsultsNothing(first: MessageSource, second: MessageSource, code: Option<string>, args: Option<seq<string>>, locale: Option<Locale>)
    requires code.None? || IsBlank(code.value)
    ensures GetMessage(first, code, args, locale) == GetMessage(second, code, args, locale)
  {
  }

  /** A null locale is looked up exactly as English. */
  lemma NullLocaleIsEnglish(source: MessageSource, code: Option<string>, args: Option<seq<string>>)
    ensures GetMessage(source, code, args, None) == GetMessage(source, code, args, Some(ENGLISH))
  {
  }

  /**
    * The lookup order: the requested locale's text wins; failing that, the English text; failing
    * both, the not-found text.
    */
  lemma LookupOrder(source: MessageSource, code: string, args: Option<seq<string>>, locale: Locale)
    requires !IsBlank(code)
    ensures source(code, args, locale).Found? ==> GetMessage(source, Some(code), args, Some(locale)) == Ok(source(code, args, locale).text)
    ensures source(code, args, locale).NoSuchMessage? && source(code, args, ENGLISH).Found? ==>
              GetMessage(source, Some(code), args, Some(locale)) == Ok(source(code, args, ENGLISH).text)
    ensures source(code, args, locale).NoSuchMessage? && source(code, args, ENGLISH).NoSuchMessage? ==>
              GetMessage(source, Some(code), args, Some(locale)) == Ok("Message not found: " + code)
  {
  }

  /** Only an error on the English retry makes the call fail; an error on the first attempt is answered. */
  lemma OnlyRetryErrorEscapes(source: MessageSource, code: string, args: Option<seq<string>>, locale: Locale)
    requires !IsBlank(code)
    ensures source(code, args, locale).LookupError? ==>
              GetMessage(source, Some(code), args, Some(locale)) == Ok("Error retrieving message: " + code)
    ensures GetMessage(source, Some(code), args, Some(locale)).Err? <==>
              source(code, args, locale).NoSuchMessage? && source(code, args, ENGLISH).LookupError?
  {
  }

  /** An English message that is missing is looked up twice in English and then reported as not found. */
  lemma MissingEnglishMessage(source: MessageSource, code: string, args: Option<seq<string>>)
    requires !IsBlank(code) && source(code, args, ENGLISH).NoSuchMessage?
    ensures GetMessage(source, Some(code), args, Some(ENGLISH)) == Ok("Message not found: " + code)
  {
  }

  /** getMessage(code, locale): no arguments. */
  function GetMessageFor(source: MessageSource, code: Option<string>, locale: Option<Locale>): Result<string> {
    GetMessage(source, code, None, locale)
  }

  /** getMessage(code): no arguments, in English. */
  function GetEnglishMessage(source: MessageSource, code: Option<string>): Result<string> {
    GetMessage(source, code, None, Some(ENGLISH))
  }

  /** The shorter overloads are the full one with null arguments, and English when no locale is given. */
  lemma OverloadsPassNullArguments(source: MessageSource, code: Option<string>, locale: Option<Locale>)
    ensures GetMessageFor(source, code, locale) == GetMessage(source, code, None, locale)
    ensures GetEnglishMessage(source, code) == GetMessageFor(source, code, None)
  {
  }
}
