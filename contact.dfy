/**
 * The contact form action: the schema check, the Turnstile guard, and the
 * insertion of one unread, unarchived submission.
 */
module Contact {
  import opened Wrappers
  import opened Turnstile

  /** The `inquiry_type` enum of the database, which the schema repeats. */
  datatype InquiryType = General | Housing | Transit | Energy | Government | Partnership | Media | Volunteer

  function InquiryName(t: InquiryType): string {
    match t
    case General => "general"
    case Housing => "housing"
    case Transit => "transit"
    case Energy => "energy"
    case Government => "government"
    case Partnership => "partnership"
    case Media => "media"
    case Volunteer => "volunteer"
  }

  /** `z.enum([...])` on the submitted text. */
  function ParseInquiryType(s: string): (r: Option<InquiryType>)
    ensures r.Some? ==> InquiryName(r.value) == s
  {
    if s == "general" then Some(General)
    else if s == "housing" then Some(Housing)
    else if s == "transit" then Some(Transit)
    else if s == "energy" then Some(Energy)
    else if s == "government" then Some(Government)
    else if s == "partnership" then Some(Partnership)
    else if s == "media" then Some(Media)
    else if s == "volunteer" then Some(Volunteer)
    else None
  }

  /** Every enum value is accepted under its own name, and only under it. */
  lemma InquiryRoundTrip(t: InquiryType, s: string)
    ensures ParseInquiryType(InquiryName(t)) == Some(t)
    ensures ParseInquiryType(s) == Some(t) <==> s == InquiryName(t)
  {
  }

  /** A stored submission. */
  datatype ContactSubmission = ContactSubmission(
    id: int,
    name: string,
    email: string,
    inquiryType: InquiryType,
    subject: string,
    message: string,
    isRead: bool,
    isArchived: bool,
    submittedAt: int)

  /** The submitted form; absent fields arrive as "". */
  datatype ContactForm = ContactForm(name: string, email: string, inquiryType: string, subject: string, message: string, turnstileToken: string)

  datatype ContactField = NameField | EmailField | InquiryTypeField | SubjectField | MessageField

  /** The fields `contactSchema` rejects. */
  function ContactErrors(f: ContactForm, isEmail: string -> bool): (errors: set<ContactField>)
    ensures NameField in errors <==> |f.name| < 2
    ensures EmailField in errors <==> !isEmail(f.email)
    ensures InquiryTypeField in errors <==> ParseInquiryType(f.inquiryType).None?
    ensures SubjectField in errors <==> |f.subject| < 5
    ensures MessageField in errors <==> |f.message| < 20
  {
    (if |f.name| < 2 then {NameField} else {})
    + (if !isEmail(f.email) then {EmailField} else {})
    + (if ParseInquiryType(f.inquiryType).None? then {InquiryTypeField} else {})
    + (if |f.subject| < 5 then {SubjectField} else {})
    + (if |f.message| < 20 then {MessageField} else {})
  }

  /** How a submission ends. */
  datatype ContactResult = Invalid(errors: set<ContactField>) | VerificationRequired | VerificationFailed | Sent

  function ContactMessage(r: ContactResult): string {
    match r
    case Invalid(_) => "Please fix the errors below."
    case VerificationRequired => "Verification required. Please complete the security check."
    case VerificationFailed => "Verification failed. Please try again."
    case Sent => "Thanks for reaching out! We'll get back to you soon."
  }

  /** The row the insert writes: the validated fields, unread and unarchived. */
  function NewSubmission(id: int, f: ContactForm, t: InquiryType, now: int): (r: ContactSubmission)
    ensures r.id == id && r.submittedAt == now && !r.isRead && !r.isArchived
    ensures r.name == f.name && r.email == f.email && r.subject == f.subject && r.message == f.message
    ensures r.inquiryType == t
  {
    ContactSubmission(id, f.name, f.email, t, f.subject, f.message, false, false, now)
  }

  datatype ContactOutcome = ContactOutcome(result: ContactResult, rows: seq<ContactSubmission>, nextId: int)

  /** `submitContactForm(formData)` at time `now` against the submissions table. */
  function SubmitContact(rows: seq<ContactSubmission>, nextId: int, f: ContactForm, isEmail: string -> bool,
                         captcha: Captcha, now: int): (o: ContactOutcome)
    ensures o.result != Sent ==> o.rows == rows && o.nextId == nextId
    ensures ContactErrors(f, isEmail) != {} ==> o.result == Invalid(ContactErrors(f, isEmail))
    ensures o.result == Sent <==>
      ContactErrors(f, isEmail) == {} && (!captcha.secretConfigured || (f.turnstileToken != "" && captcha.siteverify(f.turnstileToken)))
    ensures o.result == VerificationRequired <==>
      ContactErrors(f, isEmail) == {} && captcha.secretConfigured && f.turnstileToken == ""
    ensures o.result == VerificationFailed <==>
      ContactErrors(f, isEmail) == {} && captcha.secretConfigured && f.turnstileToken != "" && !captcha.siteverify(f.turnstileToken)
    ensures o.result == Sent ==>
      o.rows == rows + [NewSubmission(nextId, f, ParseInquiryType(f.inquiryType).value, now)] && o.nextId == nextId + 1
  {
    var errors := ContactErrors(f, isEmail);
    if errors != {} then ContactOutcome(Invalid(errors), rows, nextId)
    else if captcha.secretConfigured && f.turnstileToken == "" then ContactOutcome(VerificationRequired, rows, nextId)
    else if captcha.secretConfigured && !VerifyTurnstile(captcha, f.turnstileToken) then ContactOutcome(VerificationFailed, rows, nextId)
    else
      var t := ParseInquiryType(f.inquiryType).value;
      ContactOutcome(Sent, rows + [NewSubmission(nextId, f, t, now)], nextId + 1)
  }

  /** Without a secret key the token is never looked at. */
  lemma NoSecretIgnoresToken(rows: seq<ContactSubmission>, nextId: int, f: ContactForm, isEmail: string -> bool,
                             captcha: Captcha, now: int, token: string)
    requires !captcha.secretConfigured
    ensures SubmitContact(rows, nextId, f, isEmail, captcha, now)
         == SubmitContact(rows, nextId, f.(turnstileToken := token), isEmail, captcha, now)
  {
    assert ContactErrors(f, isEmail) == ContactErrors(f.(turnstileToken := token), isEmail);
  }

  /** Every id is below the next one to hand out, and ids are distinct. */
  ghost predicate SubmissionIdsValid(rows: seq<ContactSubmission>, nextId: int) {
    (forall k :: 0 <= k < |rows| ==> rows[k].id < nextId)
    && forall i, j :: 0 <= i < j < |rows| ==> rows[i].id != rows[j].id
  }

  /** A submission keeps the ids valid and at most appends one row. */
  lemma SubmitKeepsIds(rows: seq<ContactSubmission>, nextId: int, f: ContactForm, isEmail: string -> bool,
                       captcha: Captcha, now: int)
    requires SubmissionIdsValid(rows, nextId)
    ensures var o := SubmitContact(rows, nextId, f, isEmail, captcha, now);
      SubmissionIdsValid(o.rows, o.nextId) && rows <= o.rows && |o.rows| <= |rows| + 1
  {
    var o := SubmitContact(rows, nextId, f, isEmail, captcha, now);
    if o.result == Sent {
      assert forall k :: 0 <= k < |rows| ==> o.rows[k] == rows[k];
    }
  }

  /** The options the contact page offers, as written. */
  const FormOptions: seq<string> := ["general", "housing", "transportation", "energy", "government", "partnership", "media", "volunteer"]

  /**
   * The page's "transportation" option is not a schema value: a form that
   * picks it is always refused, whatever else it holds, and nothing is stored.
   */
  lemma TransportationRejected(rows: seq<ContactSubmission>, nextId: int, f: ContactForm, isEmail: string -> bool,
                               captcha: Captcha, now: int)
    requires f.inquiryType == FormOptions[2]
    ensures var o := SubmitContact(rows, nextId, f, isEmail, captcha, now);
      o.result.Invalid? && InquiryTypeField in o.result.errors && o.rows == rows
  {
  }

  /** The options with the transit value the schema and the database use. */
  const CorrectedFormOptions: seq<string> := ["general", "housing", "transit", "energy", "government", "partnership", "media", "volunteer"]

  /** Every corrected option is accepted, and together they name every enum value. */
  lemma CorrectedOptionsAccepted()
    ensures forall i :: 0 <= i < |CorrectedFormOptions| ==> ParseInquiryType(CorrectedFormOptions[i]).Some?
    ensures forall t: InquiryType :: InquiryName(t) in CorrectedFormOptions
  {
    forall t: InquiryType ensures InquiryName(t) in CorrectedFormOptions {
      match t
      case General => assert CorrectedFormOptions[0] == InquiryName(t);
      case Housing => assert CorrectedFormOptions[1] == InquiryName(t);
      case Transit => assert CorrectedFormOptions[2] == InquiryName(t);
      case Energy => assert CorrectedFormOptions[3] == InquiryName(t);
      case Government => assert CorrectedFormOptions[4] == InquiryName(t);
      case Partnership => assert CorrectedFormOptions[5] == InquiryName(t);
      case Media => assert CorrectedFormOptions[6] == InquiryName(t);
      case Volunteer => assert CorrectedFormOptions[7] == InquiryName(t);
    }
  }
}
