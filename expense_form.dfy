/** The add-expense form of frontend/src/components/ExpenseForm.jsx: the field validator,
    and the component state that `handleChange` and `handleSubmit` update (the form, the
    field errors, the status, the API error and the idempotency key held in a ref). The
    asynchronous `handleSubmit` is split at its `await`: `HandleSubmit` runs up to the
    request and `Complete` runs once the request settles. The 2-second timer is the `Tick`
    event, the clock a calendar day, and `generateKey` a fresh key handed in. */
module ExpenseForm {
  import opened Wrappers
  import opened JsText
  import opened Amount
  import opened RequestValidation
  import opened ApiClient

  /** The inputs, by their `name` attribute. */
  datatype Field = AmountInput | CategoryInput | DescriptionInput | DateInput

  datatype Form = Form(amount: string, category: string, description: string, date: string)

  function FieldValue(f: Form, name: Field): string
  {
    match name
    case AmountInput => f.amount
    case CategoryInput => f.category
    case DescriptionInput => f.description
    case DateInput => f.date
  }

  /** `{ ...f, [name]: value }`. */
  function WithField(f: Form, name: Field, value: string): (g: Form)
    ensures FieldValue(g, name) == value
    ensures forall other :: other != name ==> FieldValue(g, other) == FieldValue(f, other)
  {
    match name
    case AmountInput => f.(amount := value)
    case CategoryInput => f.(category := value)
    case DescriptionInput => f.(description := value)
    case DateInput => f.(date := value)
  }

  const EnterPositive: string := "Enter a positive amount"
  const MaxTwoDecimals: string := "Max 2 decimal places"
  const SelectCategory: string := "Select a category"
  const DescriptionNeeded: string := "Description is required"
  const DateNeeded: string := "Date is required"
  const SomethingWentWrong: string := "Something went wrong. Try again."

  /** The one error the amount can get: an empty amount, one `parseFloat` reads as NaN, and
      one not above 0 ask for a positive amount; a positive amount outside the two-decimal
      format is told the decimal limit. */
  function AmountError(amount: string): (r: Option<string>)
    ensures r.None? <==> AmountFormat(amount) && HasNonZeroDigit(amount)
    ensures r.Some? ==> r.value == EnterPositive || r.value == MaxTwoDecimals
    ensures AmountFormat(amount) && r.Some? ==> r.value == EnterPositive
    ensures r == Some(MaxTwoDecimals) <==> !AmountFormat(amount) && ParsesAboveZero(amount)
  {
    AmountErrorOnFormat(amount);
    if amount == "" || !ParsesAboveZero(amount) then Some(EnterPositive)
    else if !AmountFormat(amount) then Some(MaxTwoDecimals)
    else None
  }

  /** In the amount format, `parseFloat` is above zero exactly when a digit is not 0. */
  lemma AmountErrorOnFormat(amount: string)
    ensures AmountFormat(amount) ==> amount != "" && (ParsesAboveZero(amount) <==> HasNonZeroDigit(amount))
  {
    if AmountFormat(amount) {
      PositivityOnAmounts(amount);
      AmountIsWholeMantissa(amount);
    }
  }

  /** A non-zero amount with three or more decimals is told the decimal limit, and one in
      the format whose digits are all 0 is asked for a positive amount. */
  lemma AmountMessages(w: string, f: string, v: string)
    requires |w| > 0 && AllDigits(w) && AllDigits(f) && |f| >= 3
    requires HasNonZeroDigit(w + "." + f)
    ensures AmountError(w + "." + f) == Some(MaxTwoDecimals)
    ensures AmountFormat(v) && !HasNonZeroDigit(v) ==> AmountError(v) == Some(EnterPositive)
  {
    LongFraction(w, f);
  }

  /** `validate`: one entry per field in error. */
  function Validate(f: Form): (errs: map<Field, string>)
    ensures AmountInput in errs <==> AmountError(f.amount).Some?
    ensures AmountInput in errs ==> errs[AmountInput] == AmountError(f.amount).value
    ensures CategoryInput in errs <==> f.category == ""
    ensures DescriptionInput in errs <==> AllSpace(f.description)
    ensures DateInput in errs <==> f.date == ""
    ensures CategoryInput in errs ==> errs[CategoryInput] == SelectCategory
    ensures DescriptionInput in errs ==> errs[DescriptionInput] == DescriptionNeeded
    ensures DateInput in errs ==> errs[DateInput] == DateNeeded
  {
    var amount := AmountError(f.amount);
    (if amount.Some? then map[AmountInput := amount.value] else map[])
    + (if f.category == "" then map[CategoryInput := SelectCategory] else map[])
    + (if Trim(f.description) == "" then map[DescriptionInput := DescriptionNeeded] else map[])
    + (if f.date == "" then map[DateInput := DateNeeded] else map[])
  }

  /** The client takes an amount exactly when the server's amount chain does. */
  lemma AmountErrorMatchesServer(amount: string)
    ensures AmountError(amount).None? <==> AmountErrors(amount) == []
  {
    AmountAccepted(amount);
    if AmountFormat(amount) {
      PositivityOnAmounts(amount);
    }
  }

  /** The body `handleSubmit` posts: the current key and the trimmed description; the
      other fields as entered. */
  function Payload(f: Form, key: string): (b: PostBody)
    ensures b.idempotencyKey == key && b.description == Trim(f.description)
    ensures b.amount == f.amount && b.category == f.category && b.date == f.date
  {
    PostBody(key, f.amount, f.category, Trim(f.description), f.date)
  }

  /** The client's checks mirror the server's: the server accepts the posted body exactly
      when the form has no error, the date is a calendar date and the key is not empty. */
  lemma FormMirrorsServer(f: Form, key: string)
    ensures ValidatePost(Payload(f, key)) == [] <==> Validate(f) == map[] && IsIsoDate(f.date) && key != ""
  {
    AmountErrorMatchesServer(f.amount);
    AmountAccepted(f.amount);
    var errs := Validate(f);
    if errs == map[] {
      assert Trim(f.description) != "";
    } else {
      assert exists k :: k in errs;
    }
  }

  // ----- Component state -----

  datatype Status = Idle | Submitting | Succeeded | Failed

  /** A calendar day the clock can show. */
  datatype Day = Day(year: nat, month: nat, day: nat)

  type CalendarDay = d: Day | d.year <= 9999 && 1 <= d.month <= 12 && 1 <= d.day <= 31
    witness Day(1970, 1, 1)

  /** `new Date().toISOString().slice(0, 10)` on that day. */
  function Today(d: CalendarDay): string
  {
    RenderDate(d.year, d.month, d.day)
  }

  function BlankForm(today: CalendarDay): Form
  {
    Form("", "", "", Today(today))
  }

  /** The component's state; `issued` is every key `generateKey` has produced so far. */
  datatype FormState = FormState(
    form: Form,
    errors: map<Field, string>,
    status: Status,
    apiError: string,
    key: string,
    issued: set<string>)

  predicate Inv(s: FormState)
  {
    s.key in s.issued
  }

  function Initial(today: CalendarDay, firstKey: string): (s: FormState)
    ensures Inv(s)
  {
    FormState(BlankForm(today), map[], Idle, "", firstKey, {firstKey})
  }

  /** `handleChange`: the named field takes the value and that field's error is cleared. */
  function Change(s: FormState, name: Field, value: string): (t: FormState)
    ensures Inv(s) ==> Inv(t)
    ensures t.key == s.key && t.issued == s.issued && t.status == s.status
    ensures FieldValue(t.form, name) == value && name !in t.errors
  {
    s.(form := WithField(s.form, name, value), errors := s.errors - {name})
  }

  /** `handleSubmit` up to its `await`: with errors it records them and stops; otherwise it
      sets the status to submitting, clears the API error and sends the payload. */
  function SubmitStart(s: FormState): (r: (FormState, Option<PostBody>))
    ensures Inv(s) ==> Inv(r.0)
    ensures r.1.None? <==> Validate(s.form) != map[]
    ensures r.0.key == s.key && r.0.issued == s.issued && r.0.form == s.form
    ensures r.1.Some? ==> r.1.value == Payload(s.form, s.key)
  {
    var errs := Validate(s.form);
    if errs != map[] then (s.(errors := errs), None)
    else (s.(status := Submitting, apiError := ""), Some(Payload(s.form, s.key)))
  }

  /** `handleSubmit` after its `await`: on success a blank form dated today, no errors and a
      new key; on failure the error status with the `ApiError`'s message or a generic one. */
  function Settle(s: FormState, result: Result<Json, Failure>, newKey: string,
                  today: CalendarDay): (t: FormState)
    ensures Inv(s) ==> Inv(t)
    ensures s.issued <= t.issued
    ensures result.Ok? ==> t.key == newKey && t.errors == map[] && t.status == Succeeded
    ensures result.Err? ==> t.key == s.key && t.form == s.form && t.status == Failed
  {
    if result.Ok? then
      s.(status := Succeeded, form := BlankForm(today), key := newKey,
         issued := s.issued + {newKey}, errors := map[])
    else
      s.(status := Failed,
         apiError := if result.error.ApiError? then result.error.message else SomethingWentWrong)
  }

  /** The timer set on success: the status goes back to idle. */
  function TimerFired(s: FormState): FormState
  {
    s.(status := Idle)
  }

  /** `handleChange` sets only the named field and clears only its error. */
  lemma ChangeTouchesOneField(s: FormState, name: Field, value: string)
    ensures var t := Change(s, name, value);
      && FieldValue(t.form, name) == value
      && (forall other :: other != name ==> FieldValue(t.form, other) == FieldValue(s.form, other))
      && name !in t.errors
      && (forall other :: other != name ==> (other in t.errors <==> other in s.errors))
      && (forall other :: other != name && other in s.errors ==> t.errors[other] == s.errors[other])
      && t.status == s.status && t.key == s.key && t.apiError == s.apiError
  {
  }

  /** A submit with errors records exactly them and changes nothing else: no request, same
      status, same key; without errors it sends a body the server validates the same way. */
  lemma SubmitOutcome(s: FormState)
    ensures var (t, request) := SubmitStart(s);
      && (request.None? <==> Validate(s.form) != map[])
      && (request.None? ==> t == s.(errors := Validate(s.form)))
      && (request.Some? ==> t.status == Submitting && t.apiError == "" && t.key == s.key
                            && t.form == s.form && request.value.idempotencyKey == s.key
                            && (ValidatePost(request.value) == [] <==> IsIsoDate(s.form.date) && s.key != ""))
  {
    FormMirrorsServer(s.form, s.key);
  }

  /** A success resets the form to today's calendar date, clears the errors and replaces the
      key with one never used before; a later tick makes the form idle again. */
  lemma SuccessRenewsKey(s: FormState, body: Json, newKey: string, today: CalendarDay)
    requires Inv(s) && newKey !in s.issued
    ensures var t := Settle(s, Ok(body), newKey, today);
      && Inv(t) && t.key != s.key && s.issued <= t.issued
      && t.status == Succeeded && t.errors == map[]
      && t.form.amount == "" && t.form.category == "" && t.form.description == ""
      && IsIsoDate(t.form.date)
      && TimerFired(t).status == Idle
  {
    RenderedDateIsIso(today.year, today.month, today.day);
  }

  /** After a failure the key and the form are kept, so submitting again sends the very same
      body, and the server's idempotency answers it with the record of the first attempt if
      that one was stored after all. */
  lemma RetryAfterFailureReplays(s: FormState, failure: Failure, newKey: string,
                                 today: CalendarDay)
    requires SubmitStart(s).1.Some?
    ensures var t := Settle(SubmitStart(s).0, Err(failure), newKey, today);
      && t.status == Failed && t.key == s.key
      && t.apiError == (if failure.ApiError? then failure.message else SomethingWentWrong)
      && SubmitStart(t).1 == SubmitStart(s).1
  {
    var t := Settle(SubmitStart(s).0, Err(failure), newKey, today);
    assert t.form == s.form;
  }

  /** A 422 answer to the submit shows the server's messages, joined with ", ", as the API
      error. */
  lemma ValidationErrorsShown(s: FormState, outcomes: seq<Outcome>, errs: seq<FieldError>,
                              newKey: string, today: CalendarDay)
    requires DefaultRetries < |outcomes|
    requires outcomes[0] == Responded(422, Some(ErrorsBody(errs)))
    ensures var t := Settle(s, ApiFetch(outcomes, DefaultRetries).0, newKey, today);
      t.status == Failed && t.apiError == Join(MessagesOf(errs), ", ") && t.key == s.key
  {
    ValidationErrorsReported(outcomes, DefaultRetries, errs);
  }

  /** The component: React state and the key ref as fields. */
  class ExpenseFormComponent {
    var form: Form
    var errors: map<Field, string>
    var status: Status
    var apiError: string
    var key: string
    ghost var issued: set<string>

    ghost function State(): FormState
      reads this
    {
      FormState(form, errors, status, apiError, key, issued)
    }

    ghost predicate Valid()
      reads this
    {
      Inv(State())
    }

    constructor(today: CalendarDay, firstKey: string)
      ensures Valid() && State() == Initial(today, firstKey)
    {
      form := BlankForm(today);
      errors := map[];
      status := Idle;
      apiError := "";
      key := firstKey;
      issued := {firstKey};
    }

    method HandleChange(name: Field, value: string)
      requires Valid()
      modifies this
      ensures Valid() && State() == Change(old(State()), name, value)
    {
      form := WithField(form, name, value);
      errors := errors - {name};
    }

    /** `handleSubmit` up to the request: the body to post, if any. */
    method HandleSubmit() returns (request: Option<PostBody>)
      requires Valid()
      modifies this
      ensures Valid() && (State(), request) == SubmitStart(old(State()))
    {
      var errs := Validate(form);
      if errs != map[] {
        errors := errs;
        return None;
      }
      status := Submitting;
      apiError := "";
      request := Some(Payload(form, key));
    }

    /** `handleSubmit` once `createExpense` has settled with `result`. */
    method Complete(result: Result<Json, Failure>, newKey: string, today: CalendarDay)
      requires Valid() && newKey !in issued
      modifies this
      ensures Valid() && State() == Settle(old(State()), result, newKey, today)
    {
      if result.Ok? {
        status := Succeeded;
        form := BlankForm(today);
        key := newKey;
        issued := issued + {newKey};
        errors := map[];
      } else {
        status := Failed;
        apiError := if result.error.ApiError? then result.error.message else SomethingWentWrong;
      }
    }

    /** The 2-second timer set on success. */
    method Tick()
      requires Valid()
      modifies this
      ensures Valid() && State() == TimerFired(old(State()))
    {
      status := Idle;
    }
  }
}
