/** The Expense schema (backend/src/models/Expense.js): the shape of a stored record, the
    constraints Mongoose enforces on insert, the `toJSON` transform, and the collection itself
    as a store whose unique index admits at most one record per idempotency key. */
module ExpenseModel {
  import opened Wrappers
  import opened JsText
  import opened Amount

  const MaxCategoryLength: nat := 100
  const MaxDescriptionLength: nat := 500

  /** A stored expense. `id` stands for the ObjectId `_id`; `date` is the calendar date as
      the request gave it (YYYY-MM-DD); `createdAt` is the insertion time that
      `timestamps: true` assigns (records are never updated, so `updatedAt` equals it). */
  datatype Expense = Expense(
    id: nat,
    idempotencyKey: string,
    amount: Money,
    category: string,
    description: string,
    date: string,
    createdAt: int)

  /** The fields handed to `Expense.create`. */
  datatype Draft = Draft(
    idempotencyKey: string,
    amount: Money,
    category: string,
    description: string,
    date: string)

  /** A failed schema validator, by path. */
  datatype Violation = Required(path: string) | TooLong(path: string, max: nat) | NotPositive

  /** Casting applies the `trim: true` setters of category and description. */
  function Cast(d: Draft): (c: Draft)
    ensures c.category == Trim(d.category) && c.description == Trim(d.description)
    ensures c.idempotencyKey == d.idempotencyKey && c.amount == d.amount && c.date == d.date
  {
    d.(category := Trim(d.category), description := Trim(d.description))
  }

  /** What the schema asks of a cast document: a non-empty key, an amount above zero, a
      category of 1 to 100 and a description of 1 to 500 UTF-16 code units (`maxlength`
      compares the JavaScript `length`), and a date. */
  predicate Conforms(d: Draft)
  {
    && d.idempotencyKey != ""
    && d.amount.coefficient > 0
    && d.category != "" && Length(d.category) <= MaxCategoryLength
    && d.description != "" && Length(d.description) <= MaxDescriptionLength
    && d.date != ""
  }

  /** `required` and then `maxlength` on a string path: a missing value is reported as
      required, one whose `length` exceeds the limit as too long. */
  function StringViolations(path: string, value: string, max: nat): (v: seq<Violation>)
    ensures v == [] <==> value != "" && Length(value) <= max
  {
    if value == "" then [Required(path)]
    else if Length(value) > max then [TooLong(path, max)]
    else []
  }

  /** Which violation a string path gets: `required` for a missing value, `maxlength` for
      one whose code units exceed the limit. */
  lemma StringViolationKinds(path: string, value: string, max: nat)
    ensures StringViolations(path, value, max) == [Required(path)] <==> value == ""
    ensures StringViolations(path, value, max) == [TooLong(path, max)] <==> value != "" && Length(value) > max
  {
  }

  /** Each string violation names its path. */
  lemma StringViolationsNamePath(path: string, value: string, max: nat)
    ensures forall x :: x in StringViolations(path, value, max) ==> !x.NotPositive? && x.path == path
  {
  }

  /** `maxlength` counts code units: 51 copies of U+1F600 are 51 characters but 102 units,
      too long for a category. */
  lemma SupplementaryCategoryTooLong()
    ensures var c := seq(51, _ => '\U{1F600}');
      |c| == 51 && Length(c) == 102
      && StringViolations("category", c, MaxCategoryLength) == [TooLong("category", MaxCategoryLength)]
  {
    LengthOfSupplementaryRun('\U{1F600}', 51);
  }

  /** The schema's amount validator, `parseFloat(v.toString()) > 0`. */
  predicate AmountValidator(m: Money)
  {
    ParsesAboveZero(ToString(m))
  }

  /** The amount validator passes exactly for a positive Decimal128. */
  lemma AmountValidatorIsPositivity(m: Money)
    ensures AmountValidator(m) <==> m.coefficient > 0
  {
    RenderedPositive(m);
  }

  /** Mongoose's validation of a cast document, path by path in schema order: `required`
      (an empty string is missing), the amount validator (written here as the positivity it
      amounts to, see `AmountValidatorIsPositivity`), and `maxlength`. The document is valid
      exactly when it conforms to the schema. */
  function Violations(d: Draft): (v: seq<Violation>)
    ensures v == [] <==> Conforms(d)
  {
    (if d.idempotencyKey == "" then [Required("idempotencyKey")] else [])
    + (if d.amount.coefficient > 0 then [] else [NotPositive])
    + StringViolations("category", d.category, MaxCategoryLength)
    + StringViolations("description", d.description, MaxDescriptionLength)
    + (if d.date == "" then [Required("date")] else [])
  }

  /** The amount is reported exactly when the schema's amount validator fails. */
  lemma NotPositiveReported(d: Draft)
    ensures NotPositive in Violations(d) <==> !AmountValidator(d.amount)
  {
    AmountValidatorIsPositivity(d.amount);
    NotPositiveOnZero(d);
  }

  lemma NotPositiveOnZero(d: Draft)
    ensures NotPositive in Violations(d) <==> d.amount.coefficient <= 0
  {
    var pre := if d.idempotencyKey == "" then [Required("idempotencyKey")] else [];
    var mid := if d.amount.coefficient > 0 then [] else [NotPositive];
    var category := StringViolations("category", d.category, MaxCategoryLength);
    var description := StringViolations("description", d.description, MaxDescriptionLength);
    var date := if d.date == "" then [Required("date")] else [];
    StringViolationsNamePath("category", d.category, MaxCategoryLength);
    StringViolationsNamePath("description", d.description, MaxDescriptionLength);
    assert Violations(d) == pre + mid + category + description + date;
    assert NotPositive !in pre && NotPositive !in category && NotPositive !in description && NotPositive !in date;
  }

  function DraftOf(e: Expense): Draft
  {
    Draft(e.idempotencyKey, e.amount, e.category, e.description, e.date)
  }

  /** A stored record: it conforms to the schema and its strings are already trimmed. */
  predicate WellFormed(e: Expense)
  {
    && Conforms(DraftOf(e))
    && Trimmed(e.category)
    && Trimmed(e.description)
  }

  /** The unique index on `idempotencyKey`: no two records share a key. */
  predicate UniqueKeys(records: seq<Expense>)
  {
    forall i, j :: 0 <= i < j < |records| ==> records[i].idempotencyKey != records[j].idempotencyKey
  }

  predicate HasKey(records: seq<Expense>, key: string)
  {
    exists i :: 0 <= i < |records| && records[i].idempotencyKey == key
  }

  /** The collection's contents and the next ObjectId it will hand out. */
  datatype StoreState = StoreState(records: seq<Expense>, nextId: nat)

  /** Every record is well formed, keys are unique, and ids grow with insertion order and
      stay below `nextId`. */
  predicate StoreInvariant(st: StoreState)
  {
    && UniqueKeys(st.records)
    && (forall i :: 0 <= i < |st.records| ==> WellFormed(st.records[i]) && st.records[i].id < st.nextId)
    && (forall i, j :: 0 <= i < j < |st.records| ==> st.records[i].id < st.records[j].id)
  }

  /** `Expense.findOne({ idempotencyKey })`: the record with that key, if any. */
  function Lookup(records: seq<Expense>, key: string): (r: Option<Expense>)
    ensures r.Some? ==> r.value in records && r.value.idempotencyKey == key
    ensures r.None? <==> !HasKey(records, key)
  {
    if records == [] then None
    else if records[0].idempotencyKey == key then Some(records[0])
    else
      var r := Lookup(records[1..], key);
      assert HasKey(records, key) ==> HasKey(records[1..], key) by {
        if HasKey(records, key) {
          var i :| 0 <= i < |records| && records[i].idempotencyKey == key;
          assert records[1..][i - 1] == records[i];
        }
      }
      r
  }

  /** With unique keys the record `findOne` returns is the one record holding that key. */
  lemma LookupFindsTheRecord(records: seq<Expense>, i: nat)
    requires UniqueKeys(records) && i < |records|
    ensures Lookup(records, records[i].idempotencyKey) == Some(records[i])
  {
    var r := Lookup(records, records[i].idempotencyKey);
    var j :| 0 <= j < |records| && records[j] == r.value;
    assert i == j;
  }

  /** Number of records holding `key`. */
  function CountKey(records: seq<Expense>, key: string): nat
  {
    if records == [] then 0
    else (if records[0].idempotencyKey == key then 1 else 0) + CountKey(records[1..], key)
  }

  /** Under the unique index a key is held by one record or by none. */
  lemma {:induction false} CountKeyUnique(records: seq<Expense>, key: string)
    requires UniqueKeys(records)
    ensures CountKey(records, key) == if HasKey(records, key) then 1 else 0
  {
    if records != [] {
      assert UniqueKeys(records[1..]) by {
        forall i, j | 0 <= i < j < |records| - 1
          ensures records[1..][i].idempotencyKey != records[1..][j].idempotencyKey
        {
          assert records[1..][i] == records[i + 1] && records[1..][j] == records[j + 1];
        }
      }
      CountKeyUnique(records[1..], key);
      if records[0].idempotencyKey == key {
        assert !HasKey(records[1..], key) by {
          forall j | 0 <= j < |records| - 1 ensures records[1..][j].idempotencyKey != key {
            assert records[1..][j] == records[j + 1];
          }
        }
      } else if HasKey(records, key) {
        var j :| 0 <= j < |records| && records[j].idempotencyKey == key;
        assert records[1..][j - 1] == records[j];
      }
    }
  }

  /** The outcome of `Expense.create`. */
  datatype CreateResult =
    | Created(record: Expense)
    | Invalid(violations: seq<Violation>)  // a Mongoose ValidationError
    | DuplicateKey                         // MongoServerError code 11000 from the unique index
    | StorageFailure                       // any other failure of the database

  /** `Expense.create(draft)` against the collection: the document is cast and validated
      first, then written, and the write fails on a key already present. `fails` stands for a
      database that cannot be reached; `now` is the clock reading that becomes `createdAt`. */
  function CreateSpec(st: StoreState, draft: Draft, fails: bool, now: int): (r: (CreateResult, StoreState))
    ensures r.0.Invalid? <==> !Conforms(Cast(draft))
    ensures r.0.StorageFailure? <==> Conforms(Cast(draft)) && fails
    ensures r.0.DuplicateKey? <==> Conforms(Cast(draft)) && !fails && HasKey(st.records, draft.idempotencyKey)
    ensures !r.0.Created? ==> r.1 == st
    ensures r.0.Created? ==>
      && r.0.record == Expense(st.nextId, draft.idempotencyKey, draft.amount, Trim(draft.category),
                               Trim(draft.description), draft.date, now)
      && r.1 == StoreState(st.records + [r.0.record], st.nextId + 1)
  {
    var cast := Cast(draft);
    var violations := Violations(cast);
    if violations != [] then (Invalid(violations), st)
    else if fails then (StorageFailure, st)
    else if Lookup(st.records, cast.idempotencyKey).Some? then (DuplicateKey, st)
    else
      var e := Expense(st.nextId, cast.idempotencyKey, cast.amount, cast.category,
                       cast.description, cast.date, now);
      (Created(e), StoreState(st.records + [e], st.nextId + 1))
  }

  /** A conforming draft with a new key is inserted as the next record. */
  lemma CreateSpecInserts(st: StoreState, draft: Draft, fails: bool, now: int)
    requires Violations(Cast(draft)) == [] && !fails && Lookup(st.records, draft.idempotencyKey).None?
    ensures var e := Expense(st.nextId, draft.idempotencyKey, draft.amount, Trim(draft.category),
                             Trim(draft.description), draft.date, now);
      CreateSpec(st, draft, fails, now) == (Created(e), StoreState(st.records + [e], st.nextId + 1))
  {
  }

  /** Whatever `create` does, the collection keeps its invariant, so afterwards at most one
      record holds the draft's key, and exactly one when the insert went through or was
      refused as a duplicate. */
  lemma CreateKeepsInvariant(st: StoreState, draft: Draft, fails: bool, now: int)
    requires StoreInvariant(st)
    ensures StoreInvariant(CreateSpec(st, draft, fails, now).1)
    ensures var (res, st') := CreateSpec(st, draft, fails, now);
      CountKey(st'.records, draft.idempotencyKey) == if res.Created? || res.DuplicateKey? then 1
        else CountKey(st.records, draft.idempotencyKey)
  {
    var (res, st') := CreateSpec(st, draft, fails, now);
    if res.Created? {
      var e := res.record;
      AppendKeepsInvariant(st, e);
      assert st'.records[|st.records|] == e;
    }
    CountKeyUnique(st'.records, draft.idempotencyKey);
  }

  /** Appending a well-formed record with a fresh key and the next id keeps the invariant. */
  lemma AppendKeepsInvariant(st: StoreState, e: Expense)
    requires StoreInvariant(st)
    requires WellFormed(e) && e.id == st.nextId && !HasKey(st.records, e.idempotencyKey)
    ensures StoreInvariant(StoreState(st.records + [e], st.nextId + 1))
  {
    var rs := st.records + [e];
    var n := |st.records|;
    forall i, j | 0 <= i < j < |rs| ensures rs[i].idempotencyKey != rs[j].idempotencyKey {
      assert rs[i] == st.records[i];
      if j < n {
        assert rs[j] == st.records[j];
      }
    }
    forall i | 0 <= i < |rs| ensures WellFormed(rs[i]) && rs[i].id < st.nextId + 1 {
      if i < n {
        assert rs[i] == st.records[i];
      }
    }
    forall i, j | 0 <= i < j < |rs| ensures rs[i].id < rs[j].id {
      assert rs[i] == st.records[i];
      if j < n {
        assert rs[j] == st.records[j];
      }
    }
  }

  lemma CastIdempotent(d: Draft)
    ensures Cast(Cast(d)) == Cast(d)
  {
    TrimIdempotent(d.category);
    TrimIdempotent(d.description);
  }

  // ----- toJSON -----

  /** A field value of a document as `toJSON` sees it. */
  datatype Value =
    | Text(s: string)
    | ObjectId(n: nat)
    | Dec(d: Money)
    | Date(day: string)
    | Timestamp(t: int)
    | Number(i: int)
    | Undefined

  /** The property names a record's document can carry. */
  datatype FieldName =
    | IdField          // "id"
    | MongoIdField     // "_id"
    | VersionField     // "__v"
    | KeyField         // "idempotencyKey"
    | AmountField      // "amount"
    | CategoryField    // "category"
    | DescriptionField // "description"
    | DateField        // "date"
    | CreatedAtField   // "createdAt"
    | UpdatedAtField   // "updatedAt"

  type Doc = map<FieldName, Value>

  /** The plain object a stored record turns into before the transform runs: its fields
      with `_id`, both timestamps and the version key `__v`. */
  function ToDocument(e: Expense): Doc
  {
    map[
      MongoIdField := ObjectId(e.id),
      KeyField := Text(e.idempotencyKey),
      AmountField := Dec(e.amount),
      CategoryField := Text(e.category),
      DescriptionField := Text(e.description),
      DateField := Date(e.date),
      CreatedAtField := Timestamp(e.createdAt),
      UpdatedAtField := Timestamp(e.createdAt),
      VersionField := Number(0)]
  }

  /** What the transform does to one field's value. */
  function Exposed(doc: Doc, k: FieldName): Value
  {
    if k == IdField then (if MongoIdField in doc then doc[MongoIdField] else Undefined)
    else if k == AmountField && k in doc && doc[k].Dec? then Text(ToString(doc[k].d))
    else if k in doc then doc[k]
    else Undefined
  }

  /** The `toJSON` transform, field by field: `id` is the old `_id`, `_id` and `__v` are gone,
      a Decimal128 amount becomes its decimal string, and every other field is unchanged. */
  function Transformed(doc: Doc): (r: Doc)
    ensures r.Keys == doc.Keys - {MongoIdField, VersionField} + {IdField}
    ensures r[IdField] == if MongoIdField in doc then doc[MongoIdField] else Undefined
    ensures AmountField in doc && doc[AmountField].Dec? ==>
      r[AmountField] == Text(ToString(doc[AmountField].d))
    ensures forall k :: (k in doc && k !in {MongoIdField, VersionField, IdField}
      && !(k == AmountField && doc[k].Dec?)) ==> r[k] == doc[k]
  {
    map k | k in doc.Keys - {MongoIdField, VersionField} + {IdField} :: Exposed(doc, k)
  }

  /** The transform as the schema writes it, editing `ret` in place. */
  method ToJSON(doc: Doc) returns (ret: Doc)
    ensures ret == Transformed(doc)
  {
    ret := doc;
    ret := ret[IdField := if MongoIdField in ret then ret[MongoIdField] else Undefined];
    ret := ret - {MongoIdField};
    ret := ret - {VersionField};
    if AmountField in ret && ret[AmountField].Dec? {
      ret := ret[AmountField := Text(ToString(ret[AmountField].d))];
    }
    assert forall k :: k in ret ==> ret[k] == Transformed(doc)[k];
  }

  /** The collection, updated in place by inserts. */
  class Store {
    var records: seq<Expense>
    var nextId: nat

    ghost predicate Valid()
      reads this
    {
      StoreInvariant(State())
    }

    function State(): StoreState
      reads this
    {
      StoreState(records, nextId)
    }

    constructor ()
      ensures Valid() && records == [] && nextId == 0
    {
      records := [];
      nextId := 0;
    }

    /** `Expense.create`: cast, validate, then insert unless the key is taken. */
    method Create(draft: Draft, fails: bool, now: int) returns (result: CreateResult)
      requires Valid()
      modifies this
      ensures Valid()
      ensures result == CreateSpec(old(State()), draft, fails, now).0
      ensures State() == CreateSpec(old(State()), draft, fails, now).1
    {
      ghost var st := State();
      var cast := Cast(draft);
      var violations := Violations(cast);
      if violations != [] {
        assert CreateSpec(st, draft, fails, now) == (Invalid(violations), st);
        return Invalid(violations);
      }
      if fails {
        assert CreateSpec(st, draft, fails, now) == (StorageFailure, st);
        return StorageFailure;
      }
      if Lookup(records, cast.idempotencyKey).Some? {
        assert CreateSpec(st, draft, fails, now) == (DuplicateKey, st);
        return DuplicateKey;
      }
      var e := Expense(nextId, cast.idempotencyKey, cast.amount, cast.category,
                       cast.description, cast.date, now);
      CreateSpecInserts(st, draft, fails, now);
      CreateKeepsInvariant(st, draft, fails, now);
      records := records + [e];
      nextId := nextId + 1;
      result := Created(e);
    }
  }
}
