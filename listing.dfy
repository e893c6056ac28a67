/** The read side of backend/src/routes/expenses.js: the category filter applied to the
    collection, the `(date, createdAt)` sort in one direction, the serialisation of each
    record, and the sorted distinct categories. */
module Listing {
  import opened Wrappers
  import opened JsText
  import opened Amount
  import opened ExpenseModel
  import opened CategoryMatch

  // ----- filter -----

  /** The records the `$regex` filter built from the query `q` selects, in store order. */
  function Filter(records: seq<Expense>, q: string): (r: seq<Expense>)
    ensures |r| <= |records|
    ensures forall e :: e in r ==> e in records
  {
    if records == [] then []
    else
      var rest := Filter(records[1..], q);
      if RegexSelects(Pattern(q), records[0].category) == Some(true) then [records[0]] + rest else rest
  }

  /** The records whose category equals `q` ignoring case, in store order. */
  function SameCategory(records: seq<Expense>, q: string): (r: seq<Expense>)
    ensures forall e :: e in r <==> e in records && EqualIgnoringCase(q, e.category)
  {
    if records == [] then []
    else
      var rest := SameCategory(records[1..], q);
      assert forall e :: e in records <==> e == records[0] || e in records[1..];
      if EqualIgnoringCase(q, records[0].category) then [records[0]] + rest else rest
  }

  /** On stored records, whose categories are trimmed, the regex filter keeps exactly the
      records whose category equals the query ignoring case. */
  lemma {:induction false} FilterIsCaseInsensitiveEquality(records: seq<Expense>, q: string)
    requires forall i :: 0 <= i < |records| ==> WellFormed(records[i])
    ensures Filter(records, q) == SameCategory(records, q)
  {
    if records != [] {
      SelectsTrimmed(q, records[0].category);
      assert forall i :: 0 <= i < |records| - 1 ==> records[1..][i] == records[i + 1];
      FilterIsCaseInsensitiveEquality(records[1..], q);
    }
  }

  // ----- sort -----

  datatype Direction = Ascending | Descending

  /** `sort === 'date_asc' ? 1 : -1`: ascending only for `date_asc`. */
  function DirectionOf(sort: Option<string>): (d: Direction)
    ensures d == Ascending <==> sort == Some("date_asc")
  {
    if sort == Some("date_asc") then Ascending else Descending
  }

  /** `a` precedes `b` in ascending `(date, createdAt)` order. Dates are compared as their
      YYYY-MM-DD text. For a date that exists this is calendar order; a text such as
      2023-02-30, which JavaScript's `Date` would roll over to 2023-03-02, is ordered here
      by its text. */
  predicate KeyLess(a: Expense, b: Expense)
  {
    Less(a.date, b.date) || (a.date == b.date && a.createdAt < b.createdAt)
  }

  predicate SameKey(a: Expense, b: Expense)
  {
    a.date == b.date && a.createdAt == b.createdAt
  }

  /** `a` must come before `b` in the requested direction. */
  predicate Before(a: Expense, b: Expense, dir: Direction)
  {
    if dir == Ascending then KeyLess(a, b) else KeyLess(b, a)
  }

  /** No record is followed by one that should precede it. */
  predicate Ordered(rs: seq<Expense>, dir: Direction)
  {
    forall i, j :: 0 <= i < j < |rs| ==> !Before(rs[j], rs[i], dir)
  }

  /** Two keys are ordered one way or the other, or they are the same key. */
  lemma KeyTrichotomy(a: Expense, b: Expense)
    ensures KeyLess(a, b) || KeyLess(b, a) || SameKey(a, b)
    ensures !(KeyLess(a, b) && KeyLess(b, a))
  {
    if a.date != b.date {
      LessTotal(a.date, b.date);
    }
    if Less(a.date, b.date) {
      LessAsymmetric(a.date, b.date);
    }
    LessIrreflexive(a.date);
  }

  lemma KeyLessTransitive(a: Expense, b: Expense, c: Expense)
    requires KeyLess(a, b) && KeyLess(b, c)
    ensures KeyLess(a, c)
  {
    if Less(a.date, b.date) && Less(b.date, c.date) {
      LessTransitive(a.date, b.date, c.date);
    }
  }

  /** "Not before" is transitive: the order is a total preorder on records. */
  lemma NotBeforeTransitive(a: Expense, b: Expense, c: Expense, dir: Direction)
    requires !Before(a, b, dir) && !Before(b, c, dir)
    ensures !Before(a, c, dir)
  {
    KeyTrichotomy(a, b);
    KeyTrichotomy(b, c);
    KeyTrichotomy(a, c);
    if Before(a, c, dir) {
      if dir == Ascending {
        if KeyLess(b, a) { KeyLessTransitive(b, a, c); }
        if KeyLess(c, b) { KeyLessTransitive(a, c, b); }
      } else {
        if KeyLess(a, b) { KeyLessTransitive(c, a, b); }
        if KeyLess(b, c) { KeyLessTransitive(b, c, a); }
      }
    }
  }

  /** No record of `rs` must precede `x`. */
  predicate NoneBefore(x: Expense, rs: seq<Expense>, dir: Direction)
  {
    forall j :: 0 <= j < |rs| ==> !Before(rs[j], x, dir)
  }

  lemma PrependOrdered(x: Expense, rs: seq<Expense>, dir: Direction)
    requires Ordered(rs, dir) && NoneBefore(x, rs, dir)
    ensures Ordered([x] + rs, dir)
  {
    var r := [x] + rs;
    forall i, j | 0 <= i < j < |r| ensures !Before(r[j], r[i], dir) {
      assert r[j] == rs[j - 1];
      if i > 0 {
        assert r[i] == rs[i - 1];
      }
    }
  }

  /** Whether some record must precede `x` depends only on which records there are. */
  lemma NoneBeforePermutation(x: Expense, a: seq<Expense>, b: seq<Expense>, dir: Direction)
    requires NoneBefore(x, a, dir) && multiset(a) == multiset(b)
    ensures NoneBefore(x, b, dir)
  {
    forall j | 0 <= j < |b| ensures !Before(b[j], x, dir) {
      assert b[j] in multiset(a);
      var i :| 0 <= i < |a| && a[i] == b[j];
    }
  }

  /** Places `e` in front of the first record it need not follow. */
  function InsertOrdered(e: Expense, rs: seq<Expense>, dir: Direction): (r: seq<Expense>)
    requires Ordered(rs, dir)
    ensures Ordered(r, dir)
    ensures multiset(r) == multiset(rs) + multiset{e}
  {
    if rs == [] then [e]
    else if !Before(rs[0], e, dir) then
      assert NoneBefore(e, rs, dir) by {
        forall j | 0 < j < |rs| ensures !Before(rs[j], e, dir) {
          NotBeforeTransitive(rs[j], rs[0], e, dir);
        }
      }
      PrependOrdered(e, rs, dir);
      [e] + rs
    else
      var rest := InsertOrdered(e, rs[1..], dir);
      assert rs == [rs[0]] + rs[1..];
      KeyTrichotomy(rs[0], e);
      assert NoneBefore(rs[0], rs[1..] + [e], dir) by {
        var t := rs[1..] + [e];
        forall j | 0 <= j < |t| ensures !Before(t[j], rs[0], dir) {
          if j < |rs| - 1 {
            assert t[j] == rs[j + 1];
          }
        }
      }
      NoneBeforePermutation(rs[0], rs[1..] + [e], rest, dir);
      PrependOrdered(rs[0], rest, dir);
      [rs[0]] + rest
  }

  /** The listing order: the records of `rs`, each exactly as often, ordered by
      `(date, createdAt)` in direction `dir`. */
  function Sort(rs: seq<Expense>, dir: Direction): (r: seq<Expense>)
    ensures Ordered(r, dir)
    ensures multiset(r) == multiset(rs)
  {
    if rs == [] then []
    else
      assert rs == [rs[0]] + rs[1..];
      InsertOrdered(rs[0], Sort(rs[1..], dir), dir)
  }

  function Reverse(rs: seq<Expense>): (r: seq<Expense>)
    ensures |r| == |rs| && forall i :: 0 <= i < |rs| ==> r[i] == rs[|rs| - 1 - i]
  {
    if rs == [] then [] else Reverse(rs[1..]) + [rs[0]]
  }

  /** The descending rule is the exact reverse of the ascending one. */
  lemma ReverseFlipsDirection(rs: seq<Expense>)
    ensures Ordered(rs, Ascending) <==> Ordered(Reverse(rs), Descending)
  {
    var r := Reverse(rs);
    if Ordered(rs, Ascending) {
      forall i, j | 0 <= i < j < |r| ensures !Before(r[j], r[i], Descending) {
        assert r[i] == rs[|rs| - 1 - i] && r[j] == rs[|rs| - 1 - j];
      }
    }
    if Ordered(r, Descending) {
      forall i, j | 0 <= i < j < |rs| ensures !Before(rs[j], rs[i], Ascending) {
        assert rs[i] == r[|rs| - 1 - i] && rs[j] == r[|rs| - 1 - j];
      }
    }
  }

  // ----- serialisation -----

  /** The object the listing builds for each record: `id`, the fields, the amount as its
      decimal string and `createdAt`; neither `updatedAt` nor `__v` appears. */
  function Serialise(e: Expense): (d: Doc)
    ensures d.Keys == {IdField, KeyField, AmountField, CategoryField, DescriptionField, DateField, CreatedAtField}
  {
    map[
      IdField := ObjectId(e.id),
      KeyField := Text(e.idempotencyKey),
      AmountField := Text(ToString(e.amount)),
      CategoryField := Text(e.category),
      DescriptionField := Text(e.description),
      DateField := Date(e.date),
      CreatedAtField := Timestamp(e.createdAt)]
  }

  /** A record listed by `GET /expenses` reads the same as the record `POST /expenses`
      returned for it, without `updatedAt`. */
  lemma ListedAsCreated(e: Expense)
    ensures Serialise(e) == Transformed(ToDocument(e)) - {UpdatedAtField}
  {
    var t := Transformed(ToDocument(e));
    TransformedAgrees(e);
    DropExtraKey(Serialise(e), t, UpdatedAtField);
  }

  /** The transformed document holds the listed fields with the listed values, and
      `updatedAt` besides. */
  lemma TransformedAgrees(e: Expense)
    ensures UpdatedAtField !in Serialise(e)
    ensures Transformed(ToDocument(e)).Keys == Serialise(e).Keys + {UpdatedAtField}
    ensures forall k :: k in Serialise(e) ==>
      k in Transformed(ToDocument(e)) && Transformed(ToDocument(e))[k] == Serialise(e)[k]
  {
    TransformedKeys(e);
    TransformedValues(e);
    NotUpdatedAt(e);
  }

  lemma NotUpdatedAt(e: Expense)
    ensures UpdatedAtField !in Serialise(e)
  {
    var keys := Serialise(e).Keys;
    assert keys == {IdField, KeyField, AmountField, CategoryField, DescriptionField, DateField, CreatedAtField};
  }

  /** A map that agrees with `m` and has one key more is `m` once that key is dropped. */
  lemma DropExtraKey(m: Doc, t: Doc, extra: FieldName)
    requires extra !in m && t.Keys == m.Keys + {extra}
    requires forall k :: k in m ==> k in t && t[k] == m[k]
    ensures t - {extra} == m
  {
  }

  lemma TransformedKeys(e: Expense)
    ensures Transformed(ToDocument(e)).Keys == Serialise(e).Keys + {UpdatedAtField}
  {
    DocumentKeys(e);
    ExposedKeys(ToDocument(e).Keys);
  }

  lemma ExposedKeys(keys: set<FieldName>)
    requires keys == {MongoIdField, KeyField, AmountField, CategoryField, DescriptionField,
      DateField, CreatedAtField, UpdatedAtField, VersionField}
    ensures keys - {MongoIdField, VersionField} + {IdField} == {IdField, KeyField, AmountField,
      CategoryField, DescriptionField, DateField, CreatedAtField} + {UpdatedAtField}
  {
  }

  /** The fields of a stored record's document. */
  lemma DocumentKeys(e: Expense)
    ensures ToDocument(e).Keys == {MongoIdField, KeyField, AmountField, CategoryField,
      DescriptionField, DateField, CreatedAtField, UpdatedAtField, VersionField}
  {
  }

  lemma TransformedValues(e: Expense)
    ensures forall k :: k in Serialise(e) ==>
      k in Transformed(ToDocument(e)) && Transformed(ToDocument(e))[k] == Serialise(e)[k]
  {
    TransformedKeys(e);
    forall k | k in Serialise(e)
      ensures Transformed(ToDocument(e))[k] == Serialise(e)[k]
    {
      TransformedIsExposed(ToDocument(e), k);
      ExposedField(e, k);
    }
  }

  lemma TransformedIsExposed(doc: Doc, k: FieldName)
    requires k in Transformed(doc)
    ensures Transformed(doc)[k] == Exposed(doc, k)
  {
  }

  /** Field by field, what the transform exposes of a record is what the listing shows. */
  lemma ExposedField(e: Expense, k: FieldName)
    requires k in Serialise(e)
    ensures Exposed(ToDocument(e), k) == Serialise(e)[k]
  {
    var doc := ToDocument(e);
    if k == IdField {
      assert doc[MongoIdField] == ObjectId(e.id);
    } else if k == AmountField {
      assert doc[AmountField] == Dec(e.amount);
    } else {
      assert k in doc;
    }
  }

  // ----- distinct categories -----

  /** Strictly increasing in UTF-16 code-unit order, hence without repeats. */
  predicate StrictlyIncreasing(cs: seq<string>)
  {
    forall i, j :: 0 <= i < j < |cs| ==> Less(cs[i], cs[j])
  }

  /** Adds `c` to a strictly increasing list unless it is already there. */
  function InsertDistinct(c: string, cs: seq<string>): (r: seq<string>)
    requires StrictlyIncreasing(cs)
    ensures StrictlyIncreasing(r)
    ensures forall x :: x in r <==> x == c || x in cs
  {
    if cs == [] then [c]
    else if c == cs[0] then cs
    else if Less(c, cs[0]) then
      assert forall j :: 0 <= j < |cs| ==> Less(c, cs[j]) by {
        forall j | 0 < j < |cs| ensures Less(c, cs[j]) {
          LessTransitive(c, cs[0], cs[j]);
        }
      }
      [c] + cs
    else
      LessTotal(c, cs[0]);
      var rest := InsertDistinct(c, cs[1..]);
      assert forall x :: x in cs <==> x == cs[0] || x in cs[1..] by {
        assert cs == [cs[0]] + cs[1..];
      }
      assert forall x :: x in rest ==> Less(cs[0], x) by {
        forall x | x in rest ensures Less(cs[0], x) {
          if x != c {
            var j :| 0 <= j < |cs[1..]| && cs[1..][j] == x;
            assert cs[j + 1] == x;
          }
        }
      }
      [cs[0]] + rest
  }

  /** Some record holds category `c`. */
  predicate HasCategory(records: seq<Expense>, c: string)
  {
    exists i :: 0 <= i < |records| && records[i].category == c
  }

  lemma HasCategorySplit(records: seq<Expense>, c: string)
    requires records != []
    ensures HasCategory(records, c) <==>
      c == records[|records| - 1].category || HasCategory(records[..|records| - 1], c)
  {
    var init := records[..|records| - 1];
    if HasCategory(records, c) {
      var i :| 0 <= i < |records| && records[i].category == c;
      if i < |records| - 1 {
        assert init[i] == records[i];
      }
    }
    if HasCategory(init, c) {
      var i :| 0 <= i < |init| && init[i].category == c;
      assert records[i] == init[i];
    }
  }

  /** `Expense.distinct('category')` followed by `.sort()`: every stored category once, in
      ascending UTF-16 code-unit order. */
  function Categories(records: seq<Expense>): (cs: seq<string>)
    ensures StrictlyIncreasing(cs)
    ensures forall c :: c in cs <==> HasCategory(records, c)
  {
    if records == [] then []
    else
      var rest := Categories(records[..|records| - 1]);
      assert forall c :: HasCategory(records, c) <==>
        c == records[|records| - 1].category || HasCategory(records[..|records| - 1], c) by {
        forall c ensures HasCategory(records, c) <==>
          c == records[|records| - 1].category || HasCategory(records[..|records| - 1], c) {
          HasCategorySplit(records, c);
        }
      }
      InsertDistinct(records[|records| - 1].category, rest)
  }

  /** A category appears once in the list. */
  lemma CategoriesDistinct(records: seq<Expense>, i: nat, j: nat)
    requires i < j < |Categories(records)|
    ensures Categories(records)[i] != Categories(records)[j]
  {
    LessIrreflexive(Categories(records)[i]);
  }
}
