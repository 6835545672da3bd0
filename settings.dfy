/**
 * The index's public settings: the projection of the full configuration that
 * is served to anonymous clients, and the `EmailOnSignup` option with its text
 * forms.
 *
 * Only the configuration fields the projection reads are modelled; the
 * configuration types themselves (`crate::config`) are not part of this
 * model, and a Markdown text is carried as its source string.
 */
module IndexSettings {
  import opened Wrappers

  datatype Email = Email(required: bool)
  datatype Registration = Registration(email: Option<Email>)
  datatype Demo = Demo(warning: string)
  datatype TermsPage = TermsPage(title: string, content: string)
  datatype Terms = Terms(page: TermsPage, uploadAgreement: string)
  datatype Website = Website(name: string, demo: Option<Demo>, terms: Terms)
  datatype Tracker = Tracker(url: string, listed: bool, private: bool)
  datatype Settings = Settings(website: Website, tracker: Tracker, registration: Option<Registration>)

  /** Whether an email is asked for on signup. */
  datatype EmailOnSignup = Required | Optional | NotIncluded

  datatype ConfigurationPublic = ConfigurationPublic(
    websiteName: string,
    trackerUrl: string,
    trackerListed: bool,
    trackerPrivate: bool,
    emailOnSignup: EmailOnSignup,
    website: Website)

  /**
   * `extract_public_settings`: `Required` or `Optional` as the registration's
   * email setting says, `NotIncluded` when there is no registration or no
   * email setting; the website and tracker fields are copied.
   */
  function ExtractPublicSettings(settings: Settings): (r: ConfigurationPublic)
    ensures r.emailOnSignup == Required <==>
              settings.registration.Some? && settings.registration.value.email.Some?
              && settings.registration.value.email.value.required
    ensures r.emailOnSignup == Optional <==>
              settings.registration.Some? && settings.registration.value.email.Some?
              && !settings.registration.value.email.value.required
    ensures r.emailOnSignup == NotIncluded <==>
              settings.registration.None? || settings.registration.value.email.None?
    ensures r.websiteName == settings.website.name && r.website == settings.website
    ensures r.trackerUrl == settings.tracker.url
    ensures r.trackerListed == settings.tracker.listed && r.trackerPrivate == settings.tracker.private
  {
    var emailOnSignup :=
      match settings.registration
      case Some(registration) =>
        (match registration.email
         case Some(email) => if email.required then Required else Optional
         case None => NotIncluded)
      case None => NotIncluded;
    ConfigurationPublic(
      settings.website.name,
      settings.tracker.url,
      settings.tracker.listed,
      settings.tracker.private,
      emailOnSignup,
      settings.website)
  }

  /** `EmailOnSignup::default()`. */
  function DefaultEmailOnSignup(): (r: EmailOnSignup)
    ensures r == Optional
  {
    Optional
  }

  /** `Display for EmailOnSignup`. */
  function EmailOnSignupText(e: EmailOnSignup): string
  {
    match e
    case Required => "required"
    case Optional => "optional"
    case NotIncluded => "ignored"
  }

  /** The lower case of an ASCII letter; other characters are kept. */
  function AsciiLower(c: char): (r: char)
    ensures 'A' <= c <= 'Z' ==> r as int == c as int + 32
    ensures !('A' <= c <= 'Z') ==> r == c
  {
    if 'A' <= c <= 'Z' then (c as int + 32) as char else c
  }

  /** `to_lowercase`, for the letters the accepted spellings are made of. */
  function ToLowercase(s: string): (r: string)
    ensures |r| == |s|
    ensures forall i :: 0 <= i < |s| ==> r[i] == AsciiLower(s[i])
  {
    seq(|s|, i requires 0 <= i < |s| => AsciiLower(s[i]))
  }

  /** The message of a refused spelling. */
  function UnknownOptionMessage(s: string): string
  {
    "Unknown config 'email_on_signup' option (required, optional, none): " + s
  }

  /**
   * `FromStr for EmailOnSignup`: "required", "optional" and "none" in any
   * letter case; anything else is refused with a message quoting the input.
   */
  function ParseEmailOnSignup(s: string): (r: Result<EmailOnSignup, string>)
    ensures r.Ok? <==> ToLowercase(s) in {"required", "optional", "none"}
    ensures r == Ok(Required) <==> ToLowercase(s) == "required"
    ensures r == Ok(Optional) <==> ToLowercase(s) == "optional"
    ensures r == Ok(NotIncluded) <==> ToLowercase(s) == "none"
    ensures r.Err? ==> r.error == UnknownOptionMessage(s)
  {
    match ToLowercase(s)
    case "required" => Ok(Required)
    case "optional" => Ok(Optional)
    case "none" => Ok(NotIncluded)
    case _ => Err(UnknownOptionMessage(s))
  }

  /** Lower-casing twice is lower-casing once. */
  lemma {:induction false} ToLowercaseIdempotent(s: string)
    ensures ToLowercase(ToLowercase(s)) == ToLowercase(s)
  {
    var l := ToLowercase(s);
    forall i | 0 <= i < |s| ensures ToLowercase(l)[i] == l[i] {
      assert l[i] == AsciiLower(s[i]);
    }
  }

  /** Parsing ignores letter case. */
  lemma ParseIgnoresCase(s: string)
    ensures ParseEmailOnSignup(s).Ok? <==> ParseEmailOnSignup(ToLowercase(s)).Ok?
    ensures ParseEmailOnSignup(s).Ok? ==> ParseEmailOnSignup(s) == ParseEmailOnSignup(ToLowercase(s))
  {
    ToLowercaseIdempotent(s);
  }

  /**
   * The displayed form parses back to `Required` and `Optional`, but not to
   * `NotIncluded`: it is displayed as "ignored" and parsed from "none".
   */
  lemma DisplayParseRoundTrip(e: EmailOnSignup)
    ensures e != NotIncluded ==> ParseEmailOnSignup(EmailOnSignupText(e)) == Ok(e)
    ensures e == NotIncluded ==> ParseEmailOnSignup(EmailOnSignupText(e)).Err?
    ensures ParseEmailOnSignup("none") == Ok(NotIncluded)
  {
    assert ToLowercase("required") == "required";
    assert ToLowercase("optional") == "optional";
    assert ToLowercase("ignored") == "ignored";
    assert ToLowercase("none") == "none";
  }

  /** The three display strings are different. */
  lemma DisplayStringsDistinct(a: EmailOnSignup, b: EmailOnSignup)
    ensures EmailOnSignupText(a) == EmailOnSignupText(b) ==> a == b
  {
    assert "required"[0] != "optional"[0] && "required"[0] != "ignored"[0] && "optional"[0] != "ignored"[0];
  }
}
