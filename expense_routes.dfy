/** The three handlers of backend/src/routes/expenses.js. `POST /expenses` works step by
    step against the collection (a `Store`): validate, look the key up, insert, and on a
    duplicate-key error look it up again. The database's failures, the clock and a
    concurrent request that lands between the lookup and the insert are inputs (`PostEnv`).
    The two `GET` handlers only read and are functions of the collection's records. */
module ExpenseRoutes {
  import opened Wrappers
  import opened JsText
  import opened Amount
  import opened ExpenseModel
  import opened RequestValidation
  import opened CategoryMatch
  import opened Listing

  /** A JSON response body. */
  datatype Body =
    | Record(doc: Doc)
    | Records(docs: seq<Doc>)
    | Names(names: seq<string>)
    | FieldErrors(errors: seq<FieldError>)
    | Failure(error: string)

  datatype Response = Response(status: nat, body: Body)

  const InternalError: string := "Internal server error"

  /** The generic answer of every `catch`. */
  function ServerFault(): Response
  {
    Response(500, Failure(InternalError))
  }

  /** `handleValidation`: a response only when some validator failed, and then 422 with the
      whole error list; otherwise the request goes on to the handler. */
  function HandleValidation(errs: seq<FieldError>): (r: Option<Response>)
    ensures r.None? <==> errs == []
    ensures r.Some? ==> r.value == Response(422, FieldErrors(errs))
  {
    if errs == [] then None else Some(Response(422, FieldErrors(errs)))
  }

  // ----- POST / -----

  /** What happens around one POST besides the request itself. */
  datatype PostEnv = PostEnv(
    findFails: bool,             // the first `findOne` rejects
    concurrent: Option<Draft>,   // another request's `create` landing after that `findOne`
    concurrentAt: int,           // its insertion time
    createFails: bool,           // this `create` fails for a reason other than the key
    now: int)                    // the insertion time of this `create`

  /** The document the handler hands to `Expense.create`, built from the sanitized body. */
  function DraftFor(s: PostBody): (d: Draft)
    requires AmountFormat(s.amount)
    ensures d.idempotencyKey == s.idempotencyKey && d.date == s.date
    ensures d.amount == FromString(s.amount)
    ensures d.category == Trim(s.category) && d.description == Trim(s.description)
  {
    Draft(s.idempotencyKey, FromString(s.amount), Trim(s.category), Trim(s.description), s.date)
  }

  /** The body's `trim()` sanitizers do to category and description what the schema's
      `trim: true` setters do to a document with the same fields. */
  lemma SanitizedIsCast(b: PostBody, amount: Money)
    ensures var s := Sanitized(b);
      Cast(Draft(b.idempotencyKey, amount, b.category, b.description, b.date))
      == Draft(s.idempotencyKey, amount, s.category, s.description, s.date)
  {
  }

  /** A stored record as `toJSON` renders it. */
  function Rendered(e: Expense): Doc
  {
    Transformed(ToDocument(e))
  }

  /** The store after the concurrent request, if any, has run its `create`. */
  function AfterConcurrent(st: StoreState, env: PostEnv): StoreState
  {
    if env.concurrent.Some? then CreateSpec(st, env.concurrent.value, false, env.concurrentAt).1 else st
  }

  /** `POST /expenses`: the response and the collection afterwards. */
  function PostSpec(st: StoreState, b: PostBody, env: PostEnv): (r: (Response, StoreState))
    ensures r.0.status == 422 <==> ValidatePost(b) != []
    ensures r.0.status == 422 ==> r.1 == st
    ensures r.0.status == 200 || r.0.status == 201 || r.0.status == 422 || r.0.status == 500
    ensures r.0.status == 201 ==> !HasKey(st.records, b.idempotencyKey)
  {
    var errs := ValidatePost(b);
    if errs != [] then (Response(422, FieldErrors(errs)), st) else Handle(st, Sanitized(b), env)
  }

  /** The handler proper, on the sanitized body of a request that passed validation: look
      the key up, and insert when it is not there. */
  function Handle(st: StoreState, s: PostBody, env: PostEnv): (r: (Response, StoreState))
    requires AmountFormat(s.amount)
    ensures r.0.status == 200 || r.0.status == 201 || r.0.status == 500
    ensures env.findFails ==> r.0.status == 500 && r.1 == st
    ensures !env.findFails && HasKey(st.records, s.idempotencyKey) ==> r.0.status == 200 && r.1 == st
    ensures r.0.status == 201 ==> !env.findFails && !HasKey(st.records, s.idempotencyKey)
  {
    if env.findFails then (ServerFault(), st)
    else
      var existing := Lookup(st.records, s.idempotencyKey);
      if existing.Some? then (Response(200, Record(Rendered(existing.value))), st)
      else Insert(AfterConcurrent(st, env), DraftFor(s), env)
  }

  /** The `create` call and the `catch` around it: 201 with the new record; on a duplicate
      key, 200 with the record a second `findOne` returns; any other failure, 500. */
  function Insert(st: StoreState, d: Draft, env: PostEnv): (r: (Response, StoreState))
    ensures r.0.status == 201 <==> Conforms(Cast(d)) && !env.createFails && !HasKey(st.records, d.idempotencyKey)
    ensures r.0.status == 200 <==> Conforms(Cast(d)) && !env.createFails && HasKey(st.records, d.idempotencyKey)
    ensures r.0.status == 500 <==> !Conforms(Cast(d)) || env.createFails
    ensures r.0.status != 201 ==> r.1 == st
    ensures r.0.status == 201 ==> |r.1.records| == |st.records| + 1
  {
    var (res, st') := CreateSpec(st, d, env.createFails, env.now);
    if res.Created? then (Response(201, Record(Rendered(res.record))), st')
    else if res.DuplicateKey? then
      (Response(200, Record(Rendered(Lookup(st'.records, d.idempotencyKey).value))), st')
    else (ServerFault(), st')
  }

  /** The handler, step by step against the collection. */
  method Post(store: Store, b: PostBody, env: PostEnv) returns (resp: Response)
    requires store.Valid()
    modifies store
    ensures store.Valid()
    ensures (resp, store.State()) == PostSpec(old(store.State()), b, env)
  {
    var rejected := HandleValidation(ValidatePost(b));
    if rejected.Some? {
      return rejected.value;
    }
    resp := HandleBody(store, Sanitized(b), env);
  }

  /** The handler past validation: the lookup, and the insert when the key is new. */
  method HandleBody(store: Store, s: PostBody, env: PostEnv) returns (resp: Response)
    requires store.Valid() && AmountFormat(s.amount)
    modifies store
    ensures store.Valid()
    ensures (resp, store.State()) == Handle(old(store.State()), s, env)
  {
    if env.findFails {
      return ServerFault();
    }
    var existing := Lookup(store.records, s.idempotencyKey);
    if existing.Some? {
      var doc := ToJSON(ToDocument(existing.value));
      return Response(200, Record(doc));
    }
    if env.concurrent.Some? {
      var _ := store.Create(env.concurrent.value, false, env.concurrentAt);
    }
    resp := InsertDraft(store, DraftFor(s), env);
  }

  /** `Expense.create` and its `catch`. */
  method InsertDraft(store: Store, d: Draft, env: PostEnv) returns (resp: Response)
    requires store.Valid()
    modifies store
    ensures store.Valid()
    ensures (resp, store.State()) == Insert(old(store.State()), d, env)
  {
    var result := store.Create(d, env.createFails, env.now);
    if result.Created? {
      var doc := ToJSON(ToDocument(result.record));
      resp := Response(201, Record(doc));
    } else if result.DuplicateKey? {
      var again := Lookup(store.records, d.idempotencyKey);
      var doc := ToJSON(ToDocument(again.value));
      resp := Response(200, Record(doc));
    } else {
      resp := ServerFault();
    }
  }

  /** A rendered record shows its amount as the decimal string of its Decimal128 value. */
  lemma RenderedAmount(e: Expense)
    ensures AmountField in Rendered(e) && Rendered(e)[AmountField] == Text(ToString(e.amount))
  {
    var doc := ToDocument(e);
    assert AmountField in doc && doc[AmountField] == Dec(e.amount);
  }

  /** The record `create` stores for a draft. */
  function Stored(st: StoreState, d: Draft, now: int): Expense
  {
    Expense(st.nextId, d.idempotencyKey, d.amount, Trim(d.category), Trim(d.description), d.date, now)
  }

  /** A conforming draft with a new key is inserted and answered 201. */
  lemma InsertCreates(st: StoreState, d: Draft, env: PostEnv)
    requires Conforms(Cast(d)) && !env.createFails && !HasKey(st.records, d.idempotencyKey)
    ensures Insert(st, d, env) ==
      (Response(201, Record(Rendered(Stored(st, d, env.now)))),
       StoreState(st.records + [Stored(st, d, env.now)], st.nextId + 1))
  {
    var r := CreateSpec(st, d, env.createFails, env.now);
    assert r.0 == Created(Stored(st, d, env.now));
    assert r.1 == StoreState(st.records + [Stored(st, d, env.now)], st.nextId + 1);
  }

  /** A conforming draft whose key is stored is refused by the unique index and answered 200
      with the stored record. */
  lemma InsertRecovers(st: StoreState, d: Draft, env: PostEnv, i: nat)
    requires UniqueKeys(st.records) && Conforms(Cast(d)) && !env.createFails
    requires i < |st.records| && st.records[i].idempotencyKey == d.idempotencyKey
    ensures Insert(st, d, env) == (Response(200, Record(Rendered(st.records[i]))), st)
  {
    LookupFindsTheRecord(st.records, i);
  }

  /** A draft the schema refuses, or a failing database, is answered 500. */
  lemma InsertFails(st: StoreState, d: Draft, env: PostEnv)
    requires !Conforms(Cast(d)) || env.createFails
    ensures Insert(st, d, env) == (ServerFault(), st)
  {
  }

  /** What the schema makes of an accepted body: trimming again changes nothing, and the
      draft conforms exactly when category and description are not white space alone and
      fit their length limits, in UTF-16 code units, once trimmed. This is where the two
      checks the validators leave to the schema show up. */
  lemma DraftOfAccepted(b: PostBody)
    requires Accepts(b)
    ensures Cast(DraftFor(Sanitized(b))) == DraftFor(Sanitized(b))
    ensures Conforms(DraftFor(Sanitized(b))) <==>
      && !AllSpace(b.category) && Length(Trim(b.category)) <= MaxCategoryLength
      && !AllSpace(b.description) && Length(Trim(b.description)) <= MaxDescriptionLength
    ensures DraftFor(Sanitized(b)).category == Trim(b.category)
    ensures DraftFor(Sanitized(b)).description == Trim(b.description)
  {
    TrimIdempotent(b.category);
    TrimIdempotent(b.description);
    var d := DraftFor(Sanitized(b));
    assert d.category == Trim(b.category) && d.description == Trim(b.description);
    TrimIdempotent(d.category);
    TrimIdempotent(d.description);
    FromStringPositive(b.amount);
    assert d.amount.coefficient > 0;
    assert d.idempotencyKey != "" && |d.date| == 10;
    assert d.category != [] <==> !AllSpace(b.category);
    assert d.description != [] <==> !AllSpace(b.description);
  }

  /** A rejected body is answered 422 with its errors, and the collection is neither read
      nor written. */
  lemma PostRejects(st: StoreState, b: PostBody, env: PostEnv)
    requires !Accepts(b)
    ensures PostSpec(st, b, env) == (Response(422, FieldErrors(ValidatePost(b))), st)
    ensures ValidatePost(b) != []
  {
  }

  /** A key already stored is answered 200 with the stored record, unchanged. */
  lemma PostReplays(st: StoreState, b: PostBody, env: PostEnv, i: nat)
    requires UniqueKeys(st.records) && Accepts(b) && !env.findFails
    requires i < |st.records| && st.records[i].idempotencyKey == b.idempotencyKey
    ensures PostSpec(st, b, env) == (Response(200, Record(Rendered(st.records[i]))), st)
  {
    LookupFindsTheRecord(st.records, i);
  }

  /** A new key, with no other request in between and a working database, adds exactly one
      record, with trimmed category and description and the decimal amount, and answers 201
      with it; a canonically written amount comes back as written. */
  lemma PostCreates(st: StoreState, b: PostBody, env: PostEnv)
    requires StoreInvariant(st) && Accepts(b) && !env.findFails
    requires !HasKey(st.records, b.idempotencyKey)
    requires env.concurrent.None? && !env.createFails
    requires !AllSpace(b.category) && Length(Trim(b.category)) <= MaxCategoryLength
    requires !AllSpace(b.description) && Length(Trim(b.description)) <= MaxDescriptionLength
    ensures var (resp, st') := PostSpec(st, b, env);
      var e := Expense(st.nextId, b.idempotencyKey, FromString(b.amount), Trim(b.category),
                       Trim(b.description), b.date, env.now);
      && resp == Response(201, Record(Rendered(e)))
      && st'.records == st.records + [e]
      && CountKey(st'.records, b.idempotencyKey) == 1
      && (Canonical(b.amount) ==> AmountField in Rendered(e) && Rendered(e)[AmountField] == Text(b.amount))
  {
    DraftOfAccepted(b);
    var d := DraftFor(Sanitized(b));
    PostOfNewKey(st, b, env);
    InsertCreates(st, d, env);
    TrimIdempotent(b.category);
    TrimIdempotent(b.description);
    var e := Stored(st, d, env.now);
    assert e == Expense(st.nextId, b.idempotencyKey, FromString(b.amount),
      Trim(b.category), Trim(b.description), b.date, env.now);
    CreateKeepsInvariant(st, d, false, env.now);
    if Canonical(b.amount) {
      RenderedAmount(e);
      FromStringToString(b.amount);
    }
  }

  /** An accepted body with a new key, and no other request in between, goes to `create`. */
  lemma PostOfNewKey(st: StoreState, b: PostBody, env: PostEnv)
    requires Accepts(b) && !env.findFails
    requires !HasKey(st.records, b.idempotencyKey) && env.concurrent.None?
    ensures PostSpec(st, b, env) == Insert(st, DraftFor(Sanitized(b)), env)
  {
    var s := Sanitized(b);
    assert PostSpec(st, b, env) == Handle(st, s, env);
    assert Lookup(st.records, s.idempotencyKey).None?;
  }

  /** When another request inserts the same key between the lookup and the insert, the
      unique index refuses this insert and the handler answers 200 with the record the other
      request stored; the collection holds that one record for the key. */
  lemma PostRecoversFromDuplicate(st: StoreState, b: PostBody, env: PostEnv)
    requires StoreInvariant(st) && Accepts(b) && !env.findFails
    requires !HasKey(st.records, b.idempotencyKey)
    requires env.concurrent.Some? && env.concurrent.value.idempotencyKey == b.idempotencyKey
    requires Conforms(Cast(env.concurrent.value)) && !env.createFails
    requires !AllSpace(b.category) && Length(Trim(b.category)) <= MaxCategoryLength
    requires !AllSpace(b.description) && Length(Trim(b.description)) <= MaxDescriptionLength
    ensures var (resp, st') := PostSpec(st, b, env);
      var other := Stored(st, env.concurrent.value, env.concurrentAt);
      && resp == Response(200, Record(Rendered(other)))
      && st'.records == st.records + [other]
      && CountKey(st'.records, b.idempotencyKey) == 1
  {
    var c := env.concurrent.value;
    CreateKeepsInvariant(st, c, false, env.concurrentAt);
    var st1 := AfterConcurrent(st, env);
    var n := |st.records|;
    assert st1.records[n] == Stored(st, c, env.concurrentAt);
    DraftOfAccepted(b);
    InsertRecovers(st1, DraftFor(Sanitized(b)), env, n);
  }

  /** Emptiness is judged before trimming: a category of white space alone passes
      validation, is trimmed to "" by the schema, fails `required`, and surfaces as 500
      with the collection unchanged. */
  lemma PostBlankCategoryFails(st: StoreState, b: PostBody, env: PostEnv)
    requires Accepts(b) && !env.findFails
    requires !HasKey(st.records, b.idempotencyKey) && env.concurrent.None?
    requires AllSpace(b.category)
    ensures PostSpec(st, b, env) == (ServerFault(), st)
  {
    DraftOfAccepted(b);
    InsertFails(st, DraftFor(Sanitized(b)), env);
  }

  /** The length limits exist only in the schema: a category or description whose trimmed
      `length` (in UTF-16 code units) is over the limit passes validation and surfaces as
      500, not 422, with the collection unchanged. */
  lemma PostTooLongFails(st: StoreState, b: PostBody, env: PostEnv)
    requires Accepts(b) && !env.findFails
    requires !HasKey(st.records, b.idempotencyKey) && env.concurrent.None?
    requires Length(Trim(b.category)) > MaxCategoryLength || Length(Trim(b.description)) > MaxDescriptionLength
    ensures PostSpec(st, b, env) == (ServerFault(), st)
  {
    DraftOfAccepted(b);
    InsertFails(st, DraftFor(Sanitized(b)), env);
  }

  /** Whatever happens, the collection keeps its invariant, so it never holds two records
      with the request's key. */
  lemma PostKeepsInvariant(st: StoreState, b: PostBody, env: PostEnv)
    requires StoreInvariant(st)
    ensures StoreInvariant(PostSpec(st, b, env).1)
    ensures CountKey(PostSpec(st, b, env).1.records, b.idempotencyKey) <= 1
  {
    var st' := PostSpec(st, b, env).1;
    if Accepts(b) {
      assert PostSpec(st, b, env) == Handle(st, Sanitized(b), env);
      HandleKeepsInvariant(st, Sanitized(b), env);
    } else {
      assert st' == st;
    }
    CountKeyUnique(st'.records, b.idempotencyKey);
  }

  lemma HandleKeepsInvariant(st: StoreState, s: PostBody, env: PostEnv)
    requires StoreInvariant(st) && AmountFormat(s.amount)
    ensures StoreInvariant(Handle(st, s, env).1)
  {
    if !env.findFails && Lookup(st.records, s.idempotencyKey).None? {
      if env.concurrent.Some? {
        CreateKeepsInvariant(st, env.concurrent.value, false, env.concurrentAt);
      }
      var st1 := AfterConcurrent(st, env);
      assert Handle(st, s, env) == Insert(st1, DraftFor(s), env);
      InsertKeepsInvariant(st1, DraftFor(s), env);
    }
  }

  lemma InsertKeepsInvariant(st: StoreState, d: Draft, env: PostEnv)
    requires StoreInvariant(st)
    ensures StoreInvariant(Insert(st, d, env).1)
  {
    CreateKeepsInvariant(st, d, env.createFails, env.now);
    assert Insert(st, d, env).1 == CreateSpec(st, d, env.createFails, env.now).1;
  }

  /** Sending the same body again after a 201 (a retry) answers 200 with the same record
      and stores nothing new. */
  lemma RetryReplays(st: StoreState, b: PostBody, env: PostEnv, env2: PostEnv)
    requires StoreInvariant(st)
    requires PostSpec(st, b, env).0.status == 201
    requires !env2.findFails
    ensures var (first, st') := PostSpec(st, b, env);
      PostSpec(st', b, env2) == (Response(200, first.body), st')
  {
    var (first, st') := PostSpec(st, b, env);
    PostKeepsInvariant(st, b, env);
    assert Accepts(b) && !env.findFails;
    var s := Sanitized(b);
    assert PostSpec(st, b, env) == Handle(st, s, env);
    assert Lookup(st.records, s.idempotencyKey).None?;
    var st1 := AfterConcurrent(st, env);
    var d := DraftFor(s);
    assert Handle(st, s, env) == Insert(st1, d, env);
    var r := CreateSpec(st1, d, env.createFails, env.now);
    assert r.0.Created?;
    assert first == Response(201, Record(Rendered(r.0.record)));
    assert st' == r.1;
    var n := |st1.records|;
    assert st'.records[n] == r.0.record;
    PostReplays(st', b, env2, n);
  }

  // ----- GET / -----

  /** Each record as the listing serialises it. */
  function SerialiseAll(rs: seq<Expense>): (docs: seq<Doc>)
    ensures |docs| == |rs| && forall i :: 0 <= i < |rs| ==> docs[i] == Serialise(rs[i])
  {
    if rs == [] then [] else [Serialise(rs[0])] + SerialiseAll(rs[1..])
  }

  /** The records the listing draws from: filtered by the trimmed category when that is not
      empty, all of them otherwise. */
  function Selected(records: seq<Expense>, category: Option<string>): seq<Expense>
  {
    if category.Some? && category.value != "" then Filter(records, category.value) else records
  }

  /** `GET /expenses`: 422 for a bad `sort`, 500 when the database fails (`fails`), and
      otherwise the selected records sorted and serialised. */
  function ListSpec(records: seq<Expense>, q: ListQuery, fails: bool): (r: Response)
    ensures r.status == 422 <==> !(q.sort.None? || q.sort.value in SortValues)
    ensures fails && (q.sort.None? || q.sort.value in SortValues) ==> r == ServerFault()
    ensures !fails && (q.sort.None? || q.sort.value in SortValues) ==> r.status == 200 && r.body.Records?
  {
    var rejected := HandleValidation(ValidateListQuery(q));
    if rejected.Some? then rejected.value
    else if fails then ServerFault()
    else
      var s := SanitizedQuery(q);
      Response(200, Records(SerialiseAll(Sort(Selected(records, s.category), DirectionOf(s.sort)))))
  }

  /** The listing of a valid collection: every record whose category equals the trimmed
      query ignoring case (every record when there is no such query), each once, ordered by
      `(date, createdAt)` ascending for `date_asc` and descending otherwise. */
  lemma ListingContents(st: StoreState, q: ListQuery)
    requires StoreInvariant(st)
    requires q.sort.None? || q.sort.value in SortValues
    ensures var r := ListSpec(st.records, q, false);
      var c := SanitizedQuery(q).category;
      var dir := if q.sort == Some("date_asc") then Ascending else Descending;
      exists rs ::
        && r == Response(200, Records(SerialiseAll(rs)))
        && Ordered(rs, dir)
        && multiset(rs) == multiset(if c.Some? && c.value != "" then SameCategory(st.records, c.value)
                                    else st.records)
  {
    var c := SanitizedQuery(q).category;
    if c.Some? && c.value != "" {
      FilterIsCaseInsensitiveEquality(st.records, c.value);
    }
    var rs := Sort(Selected(st.records, c), DirectionOf(q.sort));
    assert ListSpec(st.records, q, false) == Response(200, Records(SerialiseAll(rs)));
  }

  // ----- GET /categories -----

  /** `GET /expenses/categories`: the sorted distinct categories, or 500 when the database
      fails. */
  function CategoriesSpec(records: seq<Expense>, fails: bool): (r: Response)
    ensures fails <==> r.status == 500
    ensures !fails ==> r.body.Names? && StrictlyIncreasing(r.body.names)
    ensures !fails ==> r.body.Names? && forall c :: c in r.body.names <==> HasCategory(records, c)
  {
    if fails then ServerFault() else Response(200, Names(Categories(records)))
  }
}
