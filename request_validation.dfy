/** The express-validator chains in front of the two handlers of
    backend/src/routes/expenses.js. Every validator of a chain runs (no chain stops at its
    first failure), a `withMessage` names the validator just before it, and a validator
    without one reports "Invalid value". Field values are the strings the validators see,
    `String(value)`; a missing field is the empty string. */
module RequestValidation {
  import opened Wrappers
  import opened JsText
  import opened Amount

  /** One entry of `validationResult(req).array()`: the field and its message. */
  datatype FieldError = FieldError(path: string, msg: string)

  const DefaultMessage: string := "Invalid value"
  const KeyRequired: string := "idempotencyKey is required"
  const AmountNotPositive: string := "Amount must be positive"
  const AmountTooPrecise: string := "Max 2 decimal places"
  const CategoryRequired: string := "Category is required"
  const DescriptionRequired: string := "Description is required"
  const DateInvalid: string := "Valid date required"

  /** The fields of a POST body. */
  datatype PostBody = PostBody(
    idempotencyKey: string,
    amount: string,
    category: string,
    description: string,
    date: string)

  /** The calendar-date form of ISO 8601 (section 4.1.2.2 of ISO 8601:2004, extended
      format): four year digits, a month 01-12 and a day 01-31, separated by hyphens. */
  predicate IsIsoDate(s: string)
  {
    && |s| == 10
    && IsDigit(s[0]) && IsDigit(s[1]) && IsDigit(s[2]) && IsDigit(s[3])
    && s[4] == '-' && s[7] == '-'
    && ((s[5] == '0' && '1' <= s[6] <= '9') || (s[5] == '1' && '0' <= s[6] <= '2'))
    && ((s[8] == '0' && '1' <= s[9] <= '9') || ('1' <= s[8] <= '2' && IsDigit(s[9]))
        || (s[8] == '3' && '0' <= s[9] <= '1'))
  }

  /** The date `new Date().toISOString().slice(0, 10)` yields for a day of year `y`,
      month `m` and day `d`. */
  function RenderDate(y: nat, m: nat, d: nat): (s: string)
    requires y <= 9999 && 1 <= m <= 12 && 1 <= d <= 31
    ensures |s| == 10
  {
    FixedWidth(y, 4) + "-" + FixedWidth(m, 2) + "-" + FixedWidth(d, 2)
  }

  /** Every rendered calendar date is one the server accepts, and the fields can be read
      back from it. */
  lemma RenderedDateIsIso(y: nat, m: nat, d: nat)
    requires y <= 9999 && 1 <= m <= 12 && 1 <= d <= 31
    ensures IsIsoDate(RenderDate(y, m, d))
    ensures var s := RenderDate(y, m, d);
      DigitsValue(s[..4]) == y && DigitsValue(s[5..7]) == m && DigitsValue(s[8..]) == d
  {
    RenderDateLayout(y, m, d);
    MonthChars(m);
    DayChars(d);
    DatePowers();
    FixedWidthReadsBack(y, 4);
    FixedWidthReadsBack(m, 2);
    FixedWidthReadsBack(d, 2);
  }

  /** A number written in at least as many digits as it needs reads back as itself. */
  lemma FixedWidthReadsBack(v: nat, w: nat)
    requires v < Pow10(w)
    ensures DigitsValue(FixedWidth(v, w)) == v
  {
    FixedWidthValue(v, w);
    ModUnique(v, Pow10(w), 0, v);
  }

  lemma DatePowers()
    ensures Pow10(2) == 100 && Pow10(4) == 10000
  {
    assert Pow10(1) == 10;
    assert Pow10(3) == 1000;
  }

  /** Where the three fields sit in a rendered date. */
  lemma RenderDateLayout(y: nat, m: nat, d: nat)
    requires y <= 9999 && 1 <= m <= 12 && 1 <= d <= 31
    ensures var s := RenderDate(y, m, d);
      && s[..4] == FixedWidth(y, 4) && s[4] == '-' && s[5..7] == FixedWidth(m, 2)
      && s[7] == '-' && s[8..] == FixedWidth(d, 2)
      && s[5] == s[5..7][0] && s[6] == s[5..7][1] && s[8] == s[8..][0] && s[9] == s[8..][1]
      && IsDigit(s[0]) && IsDigit(s[1]) && IsDigit(s[2]) && IsDigit(s[3])
  {
    var s := RenderDate(y, m, d);
    assert forall i :: 0 <= i < 4 ==> s[i] == s[..4][i];
  }

  /** The two characters of a month 01-12 as `IsIsoDate` asks for them. */
  lemma MonthChars(m: nat)
    requires 1 <= m <= 12
    ensures var t := FixedWidth(m, 2);
      (t[0] == '0' && '1' <= t[1] <= '9') || (t[0] == '1' && '0' <= t[1] <= '2')
  {
    TwoDigits(m);
  }

  /** The two characters of a day 01-31 as `IsIsoDate` asks for them. */
  lemma DayChars(d: nat)
    requires 1 <= d <= 31
    ensures var t := FixedWidth(d, 2);
      || (t[0] == '0' && '1' <= t[1] <= '9') || ('1' <= t[0] <= '2' && IsDigit(t[1]))
      || (t[0] == '3' && '0' <= t[1] <= '1')
  {
    TwoDigits(d);
  }

  /** The two digits of a number below 100. */
  lemma TwoDigits(v: nat)
    requires v < 100
    ensures FixedWidth(v, 2) == [DigitChar(v / 10), DigitChar(v % 10)]
  {
    assert (v / 10) % 10 == v / 10;
    assert FixedWidth(v / 10, 1) == [DigitChar(v / 10)] by {
      assert FixedWidth(v / 10, 1) == FixedWidth(v / 100, 0) + [DigitChar((v / 10) % 10)];
    }
    assert FixedWidth(v, 2) == FixedWidth(v / 10, 1) + [DigitChar(v % 10)];
  }

  /** One validator's contribution: nothing when it passes, its message when it fails. */
  function Check(ok: bool, path: string, msg: string): (errs: seq<FieldError>)
    ensures errs == [] <==> ok
    ensures forall e :: e in errs ==> e == FieldError(path, msg)
  {
    if ok then [] else [FieldError(path, msg)]
  }

  /** The amount chain: `notEmpty`, `isFloat({ gt: 0 })` with its message, and the custom
      two-decimals check, each reporting on its own. */
  function AmountErrors(v: string): (errs: seq<FieldError>)
    ensures forall e :: e in errs ==> e.path == "amount"
    ensures FieldError("amount", DefaultMessage) in errs <==> v == ""
    ensures FieldError("amount", AmountNotPositive) in errs <==> !IsFloatAboveZero(v)
    ensures FieldError("amount", AmountTooPrecise) in errs <==> !AmountFormat(v)
    ensures |errs| <= 3
  {
    Check(v != "", "amount", DefaultMessage)
    + Check(IsFloatAboveZero(v), "amount", AmountNotPositive)
    + Check(AmountFormat(v), "amount", AmountTooPrecise)
  }

  /** The amount passes exactly when it is a digit string with at most two decimals that is
      not zero: "25.50" passes, "10.999", "0" and "0.00" do not. */
  lemma AmountAccepted(v: string)
    ensures AmountErrors(v) == [] <==> AmountFormat(v) && HasNonZeroDigit(v)
  {
    if AmountFormat(v) {
      PositivityOnAmounts(v);
    }
  }

  /** A non-zero amount with three or more decimals fails the two-decimals check alone:
      "10.999" gets just "Max 2 decimal places". */
  lemma TooManyDecimals(w: string, f: string)
    requires |w| > 0 && AllDigits(w) && AllDigits(f) && |f| >= 3
    requires HasNonZeroDigit(w + "." + f)
    ensures AmountErrors(w + "." + f) == [FieldError("amount", AmountTooPrecise)]
  {
    LongFraction(w, f);
  }

  /** The amount of the 422 example: "10.999" is refused for its decimals only. */
  lemma TooManyDecimalsExample()
    ensures AmountErrors("10.999") == [FieldError("amount", AmountTooPrecise)]
  {
    assert "10" + "." + "999" == "10.999";
    assert ("10" + "." + "999")[0] == '1';
    TooManyDecimals("10", "999");
  }

  /** An amount in the format whose digits are all 0 fails the positivity check alone. */
  lemma ZeroAmountErrors(v: string)
    requires AmountFormat(v) && !HasNonZeroDigit(v)
    ensures AmountErrors(v) == [FieldError("amount", AmountNotPositive)]
  {
    PositivityOnAmounts(v);
    AmountIsWholeMantissa(v);
  }

  /** A missing amount fails all three validators. */
  lemma EmptyAmountErrors()
    ensures AmountErrors("") == [FieldError("amount", DefaultMessage),
                                 FieldError("amount", AmountNotPositive),
                                 FieldError("amount", AmountTooPrecise)]
  {
    assert !AmountFormat("");
  }

  /** The body the POST handler accepts: a key, an amount as `AmountAccepted` describes, a
      category and a description that are not empty before trimming, and a calendar date. */
  predicate Accepts(b: PostBody)
  {
    && b.idempotencyKey != ""
    && AmountFormat(b.amount) && HasNonZeroDigit(b.amount)
    && b.category != ""
    && b.description != ""
    && IsIsoDate(b.date)
  }

  /** The position of a field in the chain list, which fixes the order of the errors. */
  function FieldRank(path: string): nat
  {
    if path == "idempotencyKey" then 0
    else if path == "amount" then 1
    else if path == "category" then 2
    else if path == "description" then 3
    else 4
  }

  /** The errors of the POST chains, field by field in chain order. The list is empty
      exactly when the body is accepted; emptiness of category and description is judged
      before `trim()` runs, so a value of white space alone raises no error here. */
  function ValidatePost(b: PostBody): (errs: seq<FieldError>)
    ensures errs == [] <==> Accepts(b)
    ensures forall i, j :: 0 <= i < j < |errs| ==> FieldRank(errs[i].path) <= FieldRank(errs[j].path)
    ensures FieldError("category", CategoryRequired) in errs <==> b.category == ""
    ensures FieldError("description", DescriptionRequired) in errs <==> b.description == ""
    ensures FieldError("idempotencyKey", KeyRequired) in errs <==> b.idempotencyKey == ""
  {
    AmountAccepted(b.amount);
    var key := Check(b.idempotencyKey != "", "idempotencyKey", KeyRequired);
    var amount := AmountErrors(b.amount);
    var category := Check(b.category != "", "category", CategoryRequired);
    var description := Check(b.description != "", "description", DescriptionRequired);
    var date := Check(b.date != "", "date", DefaultMessage) + Check(IsIsoDate(b.date), "date", DateInvalid);
    assert b.date == "" ==> !IsIsoDate(b.date);
    RankedConcat(key, amount, category, description, date);
    key + amount + category + description + date
  }

  /** Five runs of errors, each about one field in chain order, concatenate to a list
      ordered by field. */
  lemma RankedConcat(a: seq<FieldError>, b: seq<FieldError>, c: seq<FieldError>,
                     d: seq<FieldError>, e: seq<FieldError>)
    requires forall x :: x in a ==> x.path == "idempotencyKey"
    requires forall x :: x in b ==> x.path == "amount"
    requires forall x :: x in c ==> x.path == "category"
    requires forall x :: x in d ==> x.path == "description"
    requires forall x :: x in e ==> x.path == "date"
    ensures var s := a + b + c + d + e;
      forall i, j :: 0 <= i < j < |s| ==> FieldRank(s[i].path) <= FieldRank(s[j].path)
  {
    var s := a + b + c + d + e;
    forall i, j | 0 <= i < j < |s| ensures FieldRank(s[i].path) <= FieldRank(s[j].path) {
      assert s[i] in a || s[i] in b || s[i] in c || s[i] in d || s[i] in e;
      assert s[j] in a || s[j] in b || s[j] in c || s[j] in d || s[j] in e;
      if i < |a| + |b| + |c| + |d| && j >= |a| + |b| + |c| + |d| {
        assert s[j] == e[j - |a| - |b| - |c| - |d|];
      }
      if i < |a| + |b| + |c| && j >= |a| + |b| + |c| {
        assert s[j] in d + e;
      }
      if i < |a| + |b| && j >= |a| + |b| {
        assert s[j] in c + d + e;
      }
      if i < |a| && j >= |a| {
        assert s[j] in b + c + d + e;
      }
      if i >= |a| + |b| + |c| + |d| {
        assert s[i] == e[i - |a| - |b| - |c| - |d|];
      }
    }
  }

  /** The body the handler reads once the chains have run: the `trim()` sanitizers have
      replaced category and description by their trimmed values. The schema trims the same
      two fields again with the same `String.prototype.trim` (`ExpenseModel.Cast`); the
      source has both, and `ExpenseRoutes.SanitizedIsCast` states that they agree. */
  function Sanitized(b: PostBody): (s: PostBody)
    ensures s.category == Trim(b.category) && s.description == Trim(b.description)
    ensures s.idempotencyKey == b.idempotencyKey && s.amount == b.amount && s.date == b.date
  {
    b.(category := Trim(b.category), description := Trim(b.description))
  }

  // ----- GET / -----

  const SortValues: seq<string> := ["date_desc", "date_asc"]

  /** The query parameters of a listing request; `None` when a parameter is absent. */
  datatype ListQuery = ListQuery(category: Option<string>, sort: Option<string>)

  /** `query('category').optional().trim()` never fails; `query('sort').optional()
      .isIn(...)` fails, with the default message, for any present value other than the two
      sort names, the empty string included. */
  function ValidateListQuery(q: ListQuery): (errs: seq<FieldError>)
    ensures errs == [] <==> q.sort.None? || q.sort.value in SortValues
    ensures forall e :: e in errs ==> e == FieldError("sort", DefaultMessage)
  {
    if q.sort.Some? then Check(q.sort.value in SortValues, "sort", DefaultMessage) else []
  }

  /** The query the handler reads: a present category is trimmed. */
  function SanitizedQuery(q: ListQuery): (s: ListQuery)
    ensures s.sort == q.sort
    ensures s.category.Some? <==> q.category.Some?
    ensures q.category.Some? ==> s.category.value == Trim(q.category.value)
  {
    if q.category.Some? then q.(category := Some(Trim(q.category.value))) else q
  }
}
