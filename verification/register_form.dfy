/** The sign-up page: its validation schema and its submit handler. */
module RegisterForm {
  import opened Wrappers
  import TaskClient

  /** The values the page hands to the schema; as in every Formik form an
      empty input reaches the schema as `undefined`, so "" is absent. */
  datatype Values = Values(name: string, email: string, password: string, confirmation: string)

  const MinPasswordLength: nat := 8

  const NameRequired := "Name is required"
  const EmailRequired := "Email is required"
  const PasswordRequired := "Password is required"
  const PasswordTooShort := "Password must be at least 8 characters"
  const ConfirmationRequired := "Confirm password is required"
  const PasswordsDiffer := "Passwords do not match"

  /** The fields of the page's errors object; `General` holds the message of
      a failed submission. */
  datatype Field = Name | Email | Password | Confirmation | General

  predicate Acceptable(v: Values)
  {
    && v.name != ""
    && v.email != ""
    && |v.password| >= MinPasswordLength
    && v.confirmation == v.password
  }

  /** An absent password fails `required` only; `min` skips it. */
  function PasswordError(p: string): (r: Option<string>)
    ensures r.None? <==> |p| >= MinPasswordLength
    ensures r == Some(PasswordRequired) <==> p == ""
    ensures r == Some(PasswordTooShort) <==> 0 < |p| < MinPasswordLength
  {
    if p == "" then Some(PasswordRequired)
    else if |p| < MinPasswordLength then Some(PasswordTooShort)
    else None
  }

  /** The confirmation must be present and equal the password. An absent
      confirmation fails `required` only, since `oneOf` lets `undefined`
      through; an absent password makes every present confirmation differ. */
  function ConfirmationError(p: string, c: string): (r: Option<string>)
    ensures r.None? <==> c != "" && c == p
    ensures r == Some(ConfirmationRequired) <==> c == ""
    ensures r == Some(PasswordsDiffer) <==> c != "" && c != p
  {
    if c == "" then Some(ConfirmationRequired)
    else if p == "" || c != p then Some(PasswordsDiffer)
    else None
  }

  function Errors(v: Values): (r: map<Field, string>)
    ensures General !in r
    ensures Name in r <==> v.name == ""
    ensures Email in r <==> v.email == ""
    ensures Password in r <==> |v.password| < MinPasswordLength
    ensures Confirmation in r <==> v.confirmation == "" || v.confirmation != v.password
    ensures Name in r ==> r[Name] == NameRequired
    ensures Email in r ==> r[Email] == EmailRequired
    ensures Password in r ==> Some(r[Password]) == PasswordError(v.password)
    ensures Confirmation in r ==> Some(r[Confirmation]) == ConfirmationError(v.password, v.confirmation)
  {
    var e1 := if v.name == "" then map[Name := NameRequired] else map[];
    var e2 := if v.email == "" then e1[Email := EmailRequired] else e1;
    var e3 := match PasswordError(v.password) case None => e2 case Some(m) => e2[Password := m];
    match ConfirmationError(v.password, v.confirmation) case None => e3 case Some(m) => e3[Confirmation := m]
  }

  /** The page submits exactly the acceptable values. */
  lemma NoErrorsIffAcceptable(v: Values)
    ensures Errors(v) == map[] <==> Acceptable(v)
  {
    var e := Errors(v);
    if !Acceptable(v) {
      if v.name == "" {
        assert Name in e;
      } else if v.email == "" {
        assert Email in e;
      } else if |v.password| < MinPasswordLength {
        assert Password in e;
      } else {
        assert Confirmation in e;
      }
    }
  }

  // ---------------------------------------------------------------------
  // Submitting

  /** How the register call settled: a response, whose `message` may be
      missing, or a thrown value. */
  datatype Registered = Registered(message: Option<string>) | Failed(thrown: TaskClient.Thrown)

  /** What the page shows: the success text, the errors object, whether the
      form is submitting, and whether the move to the login page is
      scheduled. */
  datatype Page = Page(success: string, errors: map<Field, string>, submitting: bool, toLogin: bool)

  function HandleSubmit(p: Page, outcome: Registered): (r: Page)
    ensures !r.submitting
    ensures outcome.Registered? ==>
      r.toLogin && r.errors == p.errors && r.success == outcome.message.GetOr("")
    ensures outcome.Failed? ==>
      r.errors == map[General := TaskClient.ErrorText(outcome.thrown)]
      && r.success == p.success && r.toLogin == p.toLogin
  {
    match outcome
    case Registered(m) => p.(success := m.GetOr(""), toLogin := true, submitting := false)
    case Failed(e) => p.(errors := map[General := TaskClient.ErrorText(e)], submitting := false)
  }

  /** The success banner appears exactly when the response carried a
      non-empty message; a failed submission never schedules the move to
      the login page on a page that had none scheduled. */
  lemma SubmitOutcomes(p: Page, outcome: Registered)
    requires p.success == "" && !p.toLogin
    ensures HandleSubmit(p, outcome).success != "" <==>
      outcome.Registered? && outcome.message.Some? && outcome.message.value != ""
    ensures HandleSubmit(p, outcome).toLogin <==> outcome.Registered?
  {
  }
}
