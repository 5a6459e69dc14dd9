/** The contact form's server action (`src/app/actions.ts`): it checks the
    three submitted fields against a schema and answers with a `FormState`
    whose message comes from the dictionary of the page's language. Zod's
    e-mail pattern is a parameter, `isEmail`; the dictionaries are the
    parameter `dictionaries`. */
module Actions {
  import opened JsString

  datatype Lang = En | Ar

  /** The two texts of a dictionary's `contact` section that the action uses. */
  datatype ContactTexts = ContactTexts(errorMessage: string, successMessage: string)

  datatype Dictionaries = Dictionaries(en: ContactTexts, ar: ContactTexts)

  /** `getDictionary(lang).contact` */
  function ContactFor(d: Dictionaries, lang: Lang): ContactTexts {
    match lang
    case En => d.en
    case Ar => d.ar
  }

  /** What `formData.get` returns for a field: nothing, a text, or a file. */
  datatype Entry = Missing | Text(value: string) | Upload

  datatype FormData = FormData(name: Entry, email: Entry, message: Entry)

  /** `error.flatten().fieldErrors`: a field with no issue has no key. */
  datatype FieldErrors = FieldErrors(
    name: Option<seq<string>>,
    email: Option<seq<string>>,
    message: Option<seq<string>>)

  /** `FormState`; `errors` is `None` where the source answers `null`. */
  datatype FormState = FormState(message: string, success: bool, errors: Option<FieldErrors>)

  const NameTooShort: string := "Name must be at least 2 characters."
  const EmailInvalid: string := "Invalid email address."
  const MessageTooShort: string := "Message must be at least 10 characters."
  const NameMinLength: nat := 2
  const MessageMinLength: nat := 10

  /** Zod's default text for a value that is not a string. */
  function TypeIssue(e: Entry): string {
    if e.Missing? then "Expected string, received null" else "Expected string, received object"
  }

  /** The issues of one `z.string()` field with one refinement: a
      non-string stops at the type issue; a string that the refinement
      refuses gets the refinement's text. */
  function FieldIssues(e: Entry, accepts: string -> bool, refusal: string): (issues: seq<string>)
    ensures |issues| <= 1
    ensures issues == [] <==> e.Text? && accepts(e.value)
    ensures e.Text? && !accepts(e.value) ==> issues == [refusal]
    ensures !e.Text? ==> issues == [TypeIssue(e)]
  {
    match e
    case Text(s) => if accepts(s) then [] else [refusal]
    case _ => [TypeIssue(e)]
  }

  function NameIssues(e: Entry): seq<string> {
    FieldIssues(e, s => |s| >= NameMinLength, NameTooShort)
  }

  function EmailIssues(e: Entry, isEmail: string -> bool): seq<string> {
    FieldIssues(e, isEmail, EmailInvalid)
  }

  function MessageIssues(e: Entry): seq<string> {
    FieldIssues(e, s => |s| >= MessageMinLength, MessageTooShort)
  }

  /** A field's entry in `fieldErrors`. */
  function AsField(issues: seq<string>): (r: Option<seq<string>>)
    ensures r.None? <==> issues == []
    ensures r.Some? ==> r.value == issues
  {
    if issues == [] then None else Some(issues)
  }

  /** The outcome of `contactSchema.safeParse`. */
  datatype Parsed = Parsed(name: string, email: string, message: string) | Refused(errors: FieldErrors)

  function SafeParse(data: FormData, isEmail: string -> bool): Parsed {
    var n, e, m := NameIssues(data.name), EmailIssues(data.email, isEmail), MessageIssues(data.message);
    if n == [] && e == [] && m == [] then
      Parsed(data.name.value, data.email.value, data.message.value)
    else
      Refused(FieldErrors(AsField(n), AsField(e), AsField(m)))
  }

  /** The schema's rules, stated directly: every field a string, the name
      at least 2 characters, the e-mail accepted by the pattern, the
      message at least 10 characters. */
  predicate Acceptable(data: FormData, isEmail: string -> bool) {
    && data.name.Text? && |data.name.value| >= 2
    && data.email.Text? && isEmail(data.email.value)
    && data.message.Text? && |data.message.value| >= 10
  }

  /** `submitContactForm`. The delay in the `try` cannot fail, so the
      `catch` answer is never produced. */
  function SubmitContactForm(
    lang: Lang, dictionaries: Dictionaries, prevState: FormState,
    data: FormData, isEmail: string -> bool): (r: FormState)
    ensures r.success <==> Acceptable(data, isEmail)
    ensures r.success ==> r.message == ContactFor(dictionaries, lang).successMessage && r.errors.None?
    ensures !r.success ==> r.message == ContactFor(dictionaries, lang).errorMessage && r.errors.Some?
  {
    match SafeParse(data, isEmail)
    case Parsed(_, _, _) =>
      FormState(ContactFor(dictionaries, lang).successMessage, true, None)
    case Refused(errors) =>
      FormState(ContactFor(dictionaries, lang).errorMessage, false, Some(errors))
  }

  /** A refused form names exactly the fields that broke a rule, each with
      the one text of the rule it broke, and names at least one. */
  lemma RefusalNamesBrokenFields(
    lang: Lang, dictionaries: Dictionaries, prevState: FormState,
    data: FormData, isEmail: string -> bool)
    requires !Acceptable(data, isEmail)
    ensures var errs := SubmitContactForm(lang, dictionaries, prevState, data, isEmail).errors.value;
      && (errs.name.None? <==> data.name.Text? && |data.name.value| >= 2)
      && (errs.email.None? <==> data.email.Text? && isEmail(data.email.value))
      && (errs.message.None? <==> data.message.Text? && |data.message.value| >= 10)
      && (data.name.Text? && |data.name.value| < 2 ==> errs.name == Some([NameTooShort]))
      && (data.email.Text? && !isEmail(data.email.value) ==> errs.email == Some([EmailInvalid]))
      && (data.message.Text? && |data.message.value| < 10 ==> errs.message == Some([MessageTooShort]))
      && (errs.name.Some? || errs.email.Some? || errs.message.Some?)
  {
  }

  /** A field the form did not send fails with zod's type text. */
  lemma MissingFieldIsRefused(
    lang: Lang, dictionaries: Dictionaries, prevState: FormState,
    data: FormData, isEmail: string -> bool)
    requires data.name.Missing? || data.email.Missing? || data.message.Missing?
    ensures var r := SubmitContactForm(lang, dictionaries, prevState, data, isEmail);
      && !r.success
      && (data.name.Missing? ==> r.errors.value.name == Some(["Expected string, received null"]))
      && (data.email.Missing? ==> r.errors.value.email == Some(["Expected string, received null"]))
      && (data.message.Missing? ==> r.errors.value.message == Some(["Expected string, received null"]))
  {
  }

  /** Only the top message follows the language: the field texts are the
      same English texts for both dictionaries. */
  lemma FieldTextsIgnoreLanguage(
    dictionaries: Dictionaries, prevState: FormState, data: FormData, isEmail: string -> bool)
    ensures var en := SubmitContactForm(En, dictionaries, prevState, data, isEmail);
      var ar := SubmitContactForm(Ar, dictionaries, prevState, data, isEmail);
      && en.success == ar.success && en.errors == ar.errors
      && (!en.success ==> en.message == dictionaries.en.errorMessage && ar.message == dictionaries.ar.errorMessage)
  {
  }

  /** The previous state is never read. */
  lemma PreviousStateIgnored(
    lang: Lang, dictionaries: Dictionaries, p: FormState, q: FormState,
    data: FormData, isEmail: string -> bool)
    ensures SubmitContactForm(lang, dictionaries, p, data, isEmail)
         == SubmitContactForm(lang, dictionaries, q, data, isEmail)
  {
  }
}
