/** The browser-side API client of frontend/src/api/expenses.js: the retry rule of
    `apiFetch`, the message an `ApiError` carries, and the query string `getExpenses` puts
    on the listing URL. The network, the 10-second abort timer and the 500 ms pause between
    attempts are replaced by a sequence of attempt outcomes, one per `fetch`. */
module ApiClient {
  import opened Wrappers
  import opened JsText
  import opened Amount
  import opened RequestValidation

  // ----- JSON values and the bits of JavaScript applied to them -----

  /** A value `res.json()` can yield. Numbers are integers. The members of an object are
      kept in source order, duplicates included. */
  datatype Json =
    | JNull
    | JBool(b: bool)
    | JNum(n: int)
    | JStr(s: string)
    | JArr(items: seq<Json>)
    | JObj(members: seq<(string, Json)>)

  /** JavaScript truthiness: `null`, `false`, `0` and `""` are falsy; arrays and objects,
      even empty ones, are truthy. */
  predicate Truthy(v: Json)
  {
    match v
    case JNull => false
    case JBool(b) => b
    case JNum(n) => n != 0
    case JStr(s) => s != ""
    case JArr(_) => true
    case JObj(_) => true
  }

  /** The member `name` of a parsed object: `JSON.parse` keeps the last of several members
      with one name. `None` is `undefined`. */
  function Member(members: seq<(string, Json)>, name: string): Option<Json>
  {
    if members == [] then None
    else if members[|members| - 1].0 == name then Some(members[|members| - 1].1)
    else Member(members[..|members| - 1], name)
  }

  /** `Member` finds the last member with the name, and `undefined` exactly when there is
      none. */
  lemma {:induction false} MemberIsLast(members: seq<(string, Json)>, name: string)
    ensures Member(members, name).None? <==> forall i :: 0 <= i < |members| ==> members[i].0 != name
    ensures Member(members, name).Some? ==>
      exists i :: 0 <= i < |members| && members[i] == (name, Member(members, name).value)
                  && forall j :: i < j < |members| ==> members[j].0 != name
  {
    if members != [] && members[|members| - 1].0 != name {
      var init := members[..|members| - 1];
      MemberIsLast(init, name);
      if Member(init, name).Some? {
        var i :| 0 <= i < |init| && init[i] == (name, Member(init, name).value)
                 && forall j :: i < j < |init| ==> init[j].0 != name;
        assert members[i] == init[i];
      }
    }
  }

  /** `v[name]` on a value that is not `null`: objects give their member, and the other
      values have no property of that name. */
  function Property(v: Json, name: string): Option<Json>
    requires !v.JNull?
  {
    if v.JObj? then Member(v.members, name) else None
  }

  /** A property whose value is truthy, which is what `a || b` keeps. */
  predicate Present(p: Option<Json>)
  {
    p.Some? && Truthy(p.value)
  }

  function IntText(n: int): string
  {
    if n < 0 then "-" + FixedWidth(-n, NumDigits(-n)) else FixedWidth(n, NumDigits(n))
  }

  /** `String(v)`: arrays are joined with "," with `null` elements printed as empty, and
      every object prints as "[object Object]". */
  function Text(v: Json): string
    decreases v
  {
    match v
    case JNull => "null"
    case JBool(b) => if b then "true" else "false"
    case JNum(n) => IntText(n)
    case JStr(s) => s
    case JArr(items) => Join(ElementTexts(items), ",")
    case JObj(_) => "[object Object]"
  }

  function ElementTexts(items: seq<Json>): (parts: seq<string>)
    ensures |parts| == |items|
    decreases items
  {
    if items == [] then []
    else [if items[0].JNull? then "" else Text(items[0])] + ElementTexts(items[1..])
  }

  /** The outcome of evaluating an expression: its value, or a thrown `TypeError`. */
  datatype Eval<T> = Value(value: T) | Throws

  // ----- ApiError -----

  const RequestFailed: string := "Request failed"

  /** `body.errors || body.error || 'Request failed'`; reading a property of `null` throws. */
  function Detail(body: Json): (d: Eval<Json>)
    ensures d.Throws? <==> body.JNull?
    ensures d.Value? ==> Truthy(d.value)
    ensures !body.JNull? ==>
      d == Value(if Present(Property(body, "errors")) then Property(body, "errors").value
                 else if Present(Property(body, "error")) then Property(body, "error").value
                 else JStr(RequestFailed))
  {
    if body.JNull? then Throws
    else
      var errors, error := Property(body, "errors"), Property(body, "error");
      Value(if Present(errors) then errors.value
            else if Present(error) then error.value
            else JStr(RequestFailed))
  }

  /** `e.msg` as `join` prints it: `undefined` and `null` print as empty. */
  function MsgText(e: Json): string
    requires !e.JNull?
  {
    var m := Property(e, "msg");
    if m.None? || m.value.JNull? then "" else Text(m.value)
  }

  /** `items.map((e) => e.msg)`, printed for `join`; a `null` element throws. */
  function Msgs(items: seq<Json>): (r: Eval<seq<string>>)
    ensures r.Throws? <==> exists i :: 0 <= i < |items| && items[i].JNull?
    ensures r.Value? ==> |r.value| == |items|
  {
    if items == [] then Value([])
    else if items[0].JNull? then Throws
    else
      var rest := Msgs(items[1..]);
      assert forall i :: 1 <= i < |items| ==> items[i] == items[1..][i - 1];
      if rest.Throws? then Throws else Value([MsgText(items[0])] + rest.value)
  }

  /** The message the `ApiError` constructor gives `super`: for an array detail, the `msg`
      of each element joined with ", "; otherwise `String(detail)`. */
  function Message(detail: Json): (m: Eval<string>)
    ensures m.Throws? <==> detail.JArr? && exists i :: 0 <= i < |detail.items| && detail.items[i].JNull?
    ensures m.Value? && detail.JArr? ==> m.value == Join(Msgs(detail.items).value, ", ")
    ensures !detail.JArr? ==> m == Value(Text(detail))
  {
    if detail.JArr? then
      var msgs := Msgs(detail.items);
      if msgs.Throws? then Throws else Value(Join(msgs.value, ", "))
    else Value(Text(detail))
  }

  // ----- apiFetch -----

  /** What one `fetch` came to. A body that is not JSON is `None`. */
  datatype Outcome =
    | Responded(status: nat, body: Option<Json>)
    | NetworkDown
    | TimedOut

  /** What `apiFetch` rejects with. */
  datatype Failure =
    | ApiError(status: nat, message: string)
    | ServerError(message: string)
    | NetworkError
    | AbortError
    | TypeError
    | SyntaxError

  /** One attempt: the body it returns, a rejection that bypasses the `catch`, or an error
      that reaches the `catch`. */
  datatype Step = Returned(body: Json) | Rejected(failure: Failure) | Caught(failure: Failure)

  const DefaultRetries: nat := 3

  /** The error a 4xx response throws: the body, or `{}` when it is not JSON, gives the
      detail; a `TypeError` raised while reading it or building the message is thrown
      instead of the `ApiError`. */
  function ClientError(status: nat, body: Option<Json>): (f: Failure)
    ensures f.ApiError? || f.TypeError?
    ensures f.ApiError? ==> f.status == status
    ensures f.TypeError? ==> body.Some?
  {
    var parsed := if body.Some? then body.value else JObj([]);
    var detail := Detail(parsed);
    if detail.Throws? then TypeError
    else
      var message := Message(detail.value);
      if message.Throws? then TypeError else ApiError(status, message.value)
  }

  /** The body of one attempt. A 2xx answer is `ok`; its body is returned without being
      awaited, so a body that is not JSON rejects outside the `try`. A 4xx answer throws
      `ClientError`, any other status `Server error: <status>`, and a failed or aborted
      `fetch` throws its own error. */
  function Attempt(o: Outcome): (s: Step)
    ensures s.Caught? && s.failure.ApiError? ==> o.Responded? && 400 <= o.status < 500
    ensures s.Returned? <==> o.Responded? && 200 <= o.status <= 299 && o.body.Some?
  {
    match o
    case NetworkDown => Caught(NetworkError)
    case TimedOut => Caught(AbortError)
    case Responded(status, body) =>
      if 200 <= status <= 299 then
        if body.Some? then Returned(body.value) else Rejected(SyntaxError)
      else if 400 <= status < 500 then Caught(ClientError(status, body))
      else Caught(ServerError("Server error: " + IntText(status)))
  }

  /** The `catch` starts another attempt for every error that is not an `ApiError`, as long
      as retries are left. */
  predicate Retryable(o: Outcome)
  {
    Attempt(o).Caught? && !Attempt(o).failure.ApiError?
  }

  /** How an attempt settles the call when no further attempt follows. */
  function Settled(s: Step): Result<Json, Failure>
  {
    if s.Returned? then Ok(s.body) else Err(s.failure)
  }

  /** `apiFetch(url, options, retries)` against the outcomes of its successive attempts:
      what it resolves or rejects with, and how many attempts it made. */
  function ApiFetch(outcomes: seq<Outcome>, retries: nat): (r: (Result<Json, Failure>, nat))
    requires retries < |outcomes|
    ensures 1 <= r.1 <= retries + 1
    decreases retries
  {
    if retries > 0 && Retryable(outcomes[0]) then
      var next := ApiFetch(outcomes[1..], retries - 1);
      (next.0, next.1 + 1)
    else (Settled(Attempt(outcomes[0])), 1)
  }

  /** The attempts stop at the first outcome that is not retried, or when the retries run
      out; every earlier outcome was retried, and the last attempt decides the result. */
  lemma {:induction false} ApiFetchStops(outcomes: seq<Outcome>, retries: nat)
    requires retries < |outcomes|
    ensures var r := ApiFetch(outcomes, retries);
      && (forall i :: 0 <= i < r.1 - 1 ==> Retryable(outcomes[i]))
      && (r.1 <= retries ==> !Retryable(outcomes[r.1 - 1]))
      && r.0 == Settled(Attempt(outcomes[r.1 - 1]))
    decreases retries
  {
    if retries > 0 && Retryable(outcomes[0]) {
      ApiFetchStops(outcomes[1..], retries - 1);
      var n := ApiFetch(outcomes[1..], retries - 1).1;
      assert forall i :: 1 <= i < n + 1 ==> outcomes[i] == outcomes[1..][i - 1];
    }
  }

  /** A 4xx answer whose error can be built is an `ApiError` carrying its status, and no
      second attempt is made. */
  lemma ClientErrorTriedOnce(outcomes: seq<Outcome>, retries: nat)
    requires retries < |outcomes|
    requires outcomes[0].Responded? && 400 <= outcomes[0].status < 500
    requires ClientError(outcomes[0].status, outcomes[0].body).ApiError?
    ensures ApiFetch(outcomes, retries).1 == 1
    ensures ApiFetch(outcomes, retries).0 == Err(ClientError(outcomes[0].status, outcomes[0].body))
    ensures ApiFetch(outcomes, retries).0.error.status == outcomes[0].status
  {
    assert !Retryable(outcomes[0]);
  }

  /** The first attempt that returns a body settles the call with that body. */
  lemma FirstSuccessReturned(outcomes: seq<Outcome>, retries: nat, k: nat)
    requires k <= retries < |outcomes|
    requires forall i :: 0 <= i < k ==> Retryable(outcomes[i])
    requires Attempt(outcomes[k]).Returned?
    ensures ApiFetch(outcomes, retries) == (Ok(Attempt(outcomes[k]).body), k + 1)
  {
    ApiFetchStops(outcomes, retries);
    var n := ApiFetch(outcomes, retries).1;
    assert !Retryable(outcomes[k]);
    assert n - 1 >= k ==> n - 1 == k;
  }

  /** With every attempt failing in a retried way, `apiFetch` tries `retries + 1` times
      and rejects with the last attempt's error: with the default of 3, four attempts. */
  lemma ExhaustedRejectsWithLast(outcomes: seq<Outcome>, retries: nat)
    requires retries < |outcomes|
    requires forall i :: 0 <= i <= retries ==> Retryable(outcomes[i])
    ensures Attempt(outcomes[retries]).Caught?
    ensures ApiFetch(outcomes, retries) == (Err(Attempt(outcomes[retries]).failure), retries + 1)
  {
    assert Retryable(outcomes[retries]);
    ApiFetchStops(outcomes, retries);
  }

  /** The default policy never makes more than four attempts. */
  lemma DefaultAttemptsAtMostFour(outcomes: seq<Outcome>)
    requires DefaultRetries < |outcomes|
    ensures ApiFetch(outcomes, DefaultRetries).1 <= 4
  {
  }

  // ----- The server's validation errors, as the client reports them -----

  /** One entry of `validationResult(req).array()` as JSON. */
  function ErrorObject(e: FieldError): Json
  {
    JObj([("type", JStr("field")), ("msg", JStr(e.msg)), ("path", JStr(e.path)),
          ("location", JStr("body"))])
  }

  function ErrorObjects(errs: seq<FieldError>): (items: seq<Json>)
    ensures |items| == |errs|
  {
    if errs == [] then [] else [ErrorObject(errs[0])] + ErrorObjects(errs[1..])
  }

  /** The body of the 422 answer `handleValidation` sends: `{ errors: [...] }`. */
  function ErrorsBody(errs: seq<FieldError>): Json
  {
    JObj([("errors", JArr(ErrorObjects(errs)))])
  }

  function MessagesOf(errs: seq<FieldError>): (msgs: seq<string>)
    ensures |msgs| == |errs| && forall i :: 0 <= i < |errs| ==> msgs[i] == errs[i].msg
  {
    if errs == [] then [] else [errs[0].msg] + MessagesOf(errs[1..])
  }

  lemma {:induction false} MsgsOfErrorObjects(errs: seq<FieldError>)
    ensures Msgs(ErrorObjects(errs)) == Value(MessagesOf(errs))
  {
    if errs != [] {
      var items := ErrorObjects(errs);
      assert items[0] == ErrorObject(errs[0]) && items[1..] == ErrorObjects(errs[1..]);
      MsgsOfErrorObjects(errs[1..]);
      MsgOfErrorObject(errs[0]);
    }
  }

  lemma MsgOfErrorObject(e: FieldError)
    ensures MsgText(ErrorObject(e)) == e.msg
  {
    var ms := ErrorObject(e).members;
    assert ms[..3][..2] == [("type", JStr("field")), ("msg", JStr(e.msg))];
    assert Member(ms, "msg") == Member(ms[..3], "msg") == Member(ms[..3][..2], "msg");
  }

  /** A 422 answer listing validation errors rejects `apiFetch` at once with an `ApiError`
      whose message is their messages joined with ", ". */
  lemma ValidationErrorsReported(outcomes: seq<Outcome>, retries: nat, errs: seq<FieldError>)
    requires retries < |outcomes|
    requires outcomes[0] == Responded(422, Some(ErrorsBody(errs)))
    ensures ApiFetch(outcomes, retries) == (Err(ApiError(422, Join(MessagesOf(errs), ", "))), 1)
  {
    MsgsOfErrorObjects(errs);
    assert Property(ErrorsBody(errs), "errors") == Some(JArr(ErrorObjects(errs)));
    assert ClientError(422, Some(ErrorsBody(errs))) == ApiError(422, Join(MessagesOf(errs), ", "));
    assert !Retryable(outcomes[0]);
  }

  /** A 4xx answer whose body has no truthy `errors` but a non-empty string `error` rejects
      `apiFetch` at once with an `ApiError` carrying that string. */
  lemma ClientErrorOfErrorField(outcomes: seq<Outcome>, retries: nat, status: nat,
                                members: seq<(string, Json)>, message: string)
    requires retries < |outcomes| && 400 <= status < 500
    requires outcomes[0] == Responded(status, Some(JObj(members)))
    requires !Present(Member(members, "errors")) && Member(members, "error") == Some(JStr(message))
    requires message != ""
    ensures ApiFetch(outcomes, retries) == (Err(ApiError(status, message)), 1)
  {
    assert Detail(JObj(members)) == Value(JStr(message));
    assert ClientError(status, Some(JObj(members))) == ApiError(status, message);
    assert !Retryable(outcomes[0]);
  }

  /** The server's answer to an unknown route, `{ "error": "Not found" }` with status 404,
      rejects at once with an `ApiError` whose message is "Not found". */
  lemma NotFoundReported(outcomes: seq<Outcome>, retries: nat)
    requires retries < |outcomes|
    requires outcomes[0] == Responded(404, Some(JObj([("error", JStr("Not found"))])))
    ensures ApiFetch(outcomes, retries) == (Err(ApiError(404, "Not found")), 1)
  {
    var members := [("error", JStr("Not found"))];
    assert members[..0] == [];
    assert Member(members, "errors") == None;
    ClientErrorOfErrorField(outcomes, retries, 404, members, "Not found");
  }

  /** A 4xx answer without a JSON body, or whose body has neither a truthy `errors` nor a
      truthy `error`, is reported as "Request failed". */
  lemma BareClientError(status: nat, body: Option<Json>)
    requires 400 <= status < 500
    requires body.None? || (body.value.JObj? && !Present(Member(body.value.members, "errors"))
                            && !Present(Member(body.value.members, "error")))
    ensures ClientError(status, body) == ApiError(status, RequestFailed)
  {
  }

  // ----- getExpenses -----

  /** The characters the application/x-www-form-urlencoded serializer leaves as they are:
      ASCII letters and digits and `*-._`. */
  predicate UrlSafe(s: string)
  {
    forall i :: 0 <= i < |s| ==>
      ('a' <= s[i] <= 'z') || ('A' <= s[i] <= 'Z') || ('0' <= s[i] <= '9')
      || s[i] == '*' || s[i] == '-' || s[i] == '.' || s[i] == '_'
  }

  /** `name=value` pairs joined with `&`, as `URLSearchParams.toString` writes them. */
  function EncodePairs(pairs: seq<(string, string)>): string
  {
    Join(PairTexts(pairs), "&")
  }

  function PairTexts(pairs: seq<(string, string)>): (texts: seq<string>)
    ensures |texts| == |pairs|
  {
    if pairs == [] then [] else [pairs[0].0 + "=" + pairs[0].1] + PairTexts(pairs[1..])
  }

  /** The query `getExpenses` appends to the base URL: a parameter only for a truthy
      (non-empty) value, `category` before `sort`, and nothing at all, not even "?", when
      neither is set. */
  function QueryString(category: string, sort: string): (q: string)
    ensures category != "" && sort != "" ==> q == "?category=" + category + "&sort=" + sort
    ensures category != "" && sort == "" ==> q == "?category=" + category
    ensures category == "" && sort != "" ==> q == "?sort=" + sort
    ensures category == "" && sort == "" ==> q == ""
  {
    var pairs := (if category != "" then [("category", category)] else [])
                 + (if sort != "" then [("sort", sort)] else []);
    var qs := EncodePairs(pairs);
    QueryPairsText(category, sort);
    if qs != "" then "?" + qs else ""
  }

  /** The `name=value` text of the parameters `getExpenses` sets. */
  lemma QueryPairsText(category: string, sort: string)
    ensures var pairs := (if category != "" then [("category", category)] else [])
                         + (if sort != "" then [("sort", sort)] else []);
      EncodePairs(pairs) == if category != "" && sort != "" then "category=" + category + "&sort=" + sort
                            else if category != "" then "category=" + category
                            else if sort != "" then "sort=" + sort
                            else ""
  {
    var c, s := "category", "sort";
    if category != "" && sort != "" {
      assert [(c, category)] + [(s, sort)] == [(c, category), (s, sort)];
      var parts := [c + "=" + category, s + "=" + sort];
      assert PairTexts([(c, category), (s, sort)]) == parts;
      assert parts[1..] == [s + "=" + sort];
      assert Join(parts, "&") == parts[0] + "&" + parts[1];
    } else if category != "" {
      assert [(c, category)] + [] == [(c, category)];
    } else if sort != "" {
      assert [] + [(s, sort)] == [(s, sort)];
    } else {
      var none: seq<(string, string)> := [];
      assert none + none == none;
    }
  }

  /** The index of the first `c` in `s`, or `|s|`. */
  function FindChar(s: string, c: char): (i: nat)
    ensures i <= |s|
  {
    if s == [] || s[0] == c then 0 else 1 + FindChar(s[1..], c)
  }

  /** The `name=value` pairs of a query, split at each `&` and then at the first `=`. */
  function Pairs(s: string): seq<(string, string)>
    decreases |s|
  {
    var i := FindChar(s, '&');
    var pair := s[..i];
    var j := FindChar(pair, '=');
    var p := (pair[..j], if j < |pair| then pair[j + 1..] else "");
    if i < |s| then [p] + Pairs(s[i + 1..]) else [p]
  }

  function ParamValue(pairs: seq<(string, string)>, name: string): Option<string>
  {
    if pairs == [] then None
    else if pairs[0].0 == name then Some(pairs[0].1)
    else ParamValue(pairs[1..], name)
  }

  /** The listing query the server reads from what follows the path. */
  function ParseQuery(query: string): ListQuery
  {
    if query == [] || query[0] != '?' then ListQuery(None, None)
    else
      var pairs := Pairs(query[1..]);
      ListQuery(ParamValue(pairs, "category"), ParamValue(pairs, "sort"))
  }

  /** What the client sets is what the server reads: a parameter is present exactly when
      the client's value is non-empty, with that value. */
  lemma QueryRoundTrip(category: string, sort: string)
    requires UrlSafe(category) && UrlSafe(sort)
    ensures QueryString(category, sort) == "" <==> category == "" && sort == ""
    ensures category != "" && sort != "" ==>
      QueryString(category, sort) == "?category=" + category + "&sort=" + sort
    ensures ParseQuery(QueryString(category, sort))
         == ListQuery(if category != "" then Some(category) else None,
                      if sort != "" then Some(sort) else None)
  {
    if category != "" && sort != "" {
      BothRoundTrip(category, sort);
    } else if category != "" {
      OneRoundTrip("category", category);
      assert "?" + "category" + "=" + category == "?category=" + category;
    } else if sort != "" {
      OneRoundTrip("sort", sort);
      assert "?" + "sort" + "=" + sort == "?sort=" + sort;
    }
  }

  /** Both parameters set: the server reads both back. */
  lemma BothRoundTrip(category: string, sort: string)
    requires UrlSafe(category) && UrlSafe(sort) && category != "" && sort != ""
    ensures ParseQuery("?category=" + category + "&sort=" + sort) == ListQuery(Some(category), Some(sort))
  {
    var c, s := "category", "sort";
    var qs := c + "=" + category + "&" + (s + "=" + sort);
    assert "?category=" + category + "&sort=" + sort == "?" + qs;
    PairsCons(c, category, s + "=" + sort);
    PairsLast(s, sort);
    var pairs := [(c, category), (s, sort)];
    assert pairs[1..] == [(s, sort)];
    ParseQueryOf(qs);
  }

  /** One parameter set: the server reads it back, and not the other one. */
  lemma OneRoundTrip(name: string, value: string)
    requires name == "category" || name == "sort"
    requires UrlSafe(value) && value != ""
    ensures ParseQuery("?" + name + "=" + value)
         == ListQuery(if name == "category" then Some(value) else None,
                      if name == "sort" then Some(value) else None)
  {
    var qs := name + "=" + value;
    assert "?" + name + "=" + value == "?" + qs;
    PairsLast(name, value);
    ParseQueryOf(qs);
  }

  /** The server reads the parameters from what follows the "?". */
  lemma ParseQueryOf(qs: string)
    ensures ParseQuery("?" + qs) == ListQuery(ParamValue(Pairs(qs), "category"), ParamValue(Pairs(qs), "sort"))
  {
    assert ("?" + qs)[1..] == qs;
  }

  lemma {:induction false} FindCharAfter(a: string, b: string, c: char)
    requires c !in a
    ensures FindChar(a + b, c) == |a| + FindChar(b, c)
  {
    if a == [] {
      assert a + b == b;
    } else {
      assert (a + b)[0] == a[0] && (a + b)[1..] == a[1..] + b;
      FindCharAfter(a[1..], b, c);
    }
  }

  /** A safe name and value written `name=value` hold no `&`, and their first `=` is the one
      between them. */
  lemma SafePair(name: string, value: string)
    requires UrlSafe(name) && UrlSafe(value)
    ensures var pair := name + "=" + value;
      && '&' !in pair && FindChar(pair, '=') == |name|
      && pair[..|name|] == name && pair[|name| + 1..] == value
  {
    var pair := name + "=" + value;
    assert forall i :: 0 <= i < |pair| ==> pair[i] == '=' || pair[i] in name || pair[i] in value;
    assert '=' !in name;
    assert pair == name + ("=" + value);
    FindCharAfter(name, "=" + value, '=');
    assert FindChar("=" + value, '=') == 0;
  }

  /** A safe name and value make one pair, and the pairs after `&` follow. */
  lemma PairsCons(name: string, value: string, rest: string)
    requires UrlSafe(name) && UrlSafe(value)
    ensures Pairs(name + "=" + value + "&" + rest) == [(name, value)] + Pairs(rest)
  {
    var pair := name + "=" + value;
    var s := pair + ("&" + rest);
    assert name + "=" + value + "&" + rest == s;
    SafePair(name, value);
    FindCharAfter(pair, "&" + rest, '&');
    assert FindChar(s, '&') == |pair|;
    assert s[..|pair|] == pair && s[|pair| + 1..] == rest;
  }

  /** A safe name and value alone make one pair. */
  lemma PairsLast(name: string, value: string)
    requires UrlSafe(name) && UrlSafe(value)
    ensures Pairs(name + "=" + value) == [(name, value)]
  {
    var pair := name + "=" + value;
    SafePair(name, value);
    FindCharAfter(pair, "", '&');
    assert pair + "" == pair;
    assert FindChar(pair, '&') == |pair|;
    assert pair[..|pair|] == pair;
  }
}
