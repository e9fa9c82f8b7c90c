/** `POST /api/upload`: reads a CSV file from a form, and either replaces the
    `Person` table (when the header has the seven Person columns) by inserting
    the coerced records in batches of 1000 with duplicate ids skipped, or
    replaces the generic `Row` table with one row per record. Every outcome
    except a missing file is a 303 redirect to `/upload/success` whose query
    reports the result. */
module UploadRoute {
  import opened Wrappers
  import opened Js
  import opened Url
  import opened Store

  // ---------------------------------------------------------------------
  // Inputs and replies

  /** What reading the request produced. `thrown` is the message of a thrown
      `Error`, or `None` when something other than an `Error` was thrown. */
  datatype Form =
    | Unreadable(thrown: Option<string>)   // `request.formData()` threw
    | MissingFile                          // the form has no `file`
    | Malformed(thrown: Option<string>)    // reading or parsing the CSV threw
    | Parsed(records: seq<Record>)

  /** The store call numbered `call` (0 is the first `deleteMany`, then each
      batch or the `Row` transaction in turn) throws. */
  datatype Fault = Fault(call: nat, thrown: Option<string>)

  /** The outcome a 303 redirect to `SuccessPath` reports; `Params` gives
      the query it carries. */
  datatype Redirect = Uploaded(table: string, count: nat) | UploadFailed(thrown: Option<string>)

  datatype Reply =
    | BadRequest(error: string)
    | SeeOther(redirect: Redirect)

  function Status(r: Reply): int {
    if r.BadRequest? then 400 else 303
  }

  /** Every redirect goes to this page. */
  const SuccessPath := "/upload/success"

  /** The redirect query of a successful upload. */
  function SuccessParams(table: string, count: nat): Query {
    Set(Set(Set([], "ok", "true"), "table", table), "count", NatToString(count))
  }

  /** The three `set` calls build the pairs in order. */
  lemma SuccessParamsPairs(table: string, count: nat)
    ensures SuccessParams(table, count) == [("ok", "true"), ("table", table), ("count", NatToString(count))]
  {
    var q1: Query := [("ok", "true")];
    var q2: Query := q1 + [("table", table)];
    SetAppendsNew([], "ok", "true");
    assert Set([], "ok", "true") == q1;
    assert q1[0].0 != "table";
    SetAppendsNew(q1, "table", table);
    assert q2[0].0 != "count" && q2[1].0 != "count";
    SetAppendsNew(q2, "count", NatToString(count));
  }

  /** The text reported for a thrown value. */
  function ErrorText(thrown: Option<string>): string {
    if thrown.Some? then thrown.value else "Upload failed"
  }

  /** The redirect query of a failed upload. */
  function FailureParams(thrown: Option<string>): Query {
    Set(Set([], "ok", "false"), "error", ErrorText(thrown))
  }

  lemma FailureParamsPairs(thrown: Option<string>)
    ensures FailureParams(thrown) == [("ok", "false"), ("error", ErrorText(thrown))]
  {
    SetAppendsNew([], "ok", "false");
    SetAppendsNew([("ok", "false")], "error", ErrorText(thrown));
  }

  /** The query string of a redirect. */
  function Params(r: Redirect): Query {
    match r
    case Uploaded(table, count) => SuccessParams(table, count)
    case UploadFailed(thrown) => FailureParams(thrown)
  }

  function Failure(thrown: Option<string>): Reply {
    SeeOther(UploadFailed(thrown))
  }

  function Success(table: string, count: nat): Reply {
    SeeOther(Uploaded(table, count))
  }

  // ---------------------------------------------------------------------
  // Schema detection and coercion

  const PersonKeys: seq<string> := ["id", "name", "en_name", "age", "dob", "sex", "source"]

  /** A cell of a record; a column the record lacks reads as empty (it is
      `undefined`, which is falsy). */
  function Field(r: Record, column: string): string {
    if column in r then r[column] else ""
  }

  /** The first record (or `{}` when there is none) has all seven Person columns. */
  predicate LooksLikePerson(records: seq<Record>) {
    |records| > 0 && forall k :: 0 <= k < |PersonKeys| ==> PersonKeys[k] in records[0]
  }

  /** A coerced Person record, before the store stamps `createdAt`. */
  datatype PersonData = PersonData(
    id: string,
    name: string,
    enName: string,
    age: Option<int>,
    dob: Option<int>,
    sex: Option<string>,
    source: Option<string>)

  /** One CSV record as a Person. `parseDate` stands for `new Date(text)`
      followed by the validity test: `None` for an invalid date. Field by
      field: the text columns are copied, an empty or non-numeric age and an
      empty or invalid date become null, and sex and source are kept only
      when they are `m`/`f` and non-empty respectively. */
  function Coerce(r: Record, parseDate: string -> Option<int>): (d: PersonData)
    ensures d.id == Field(r, "id") && d.name == Field(r, "name") && d.enName == Field(r, "en_name")
    ensures d.age.None? <==> Field(r, "age") == "" || Number(Field(r, "age")).NaN?
    ensures d.age.Some? ==> Number(Field(r, "age")) == Int(d.age.value)
    ensures d.dob.None? <==> Field(r, "dob") == "" || parseDate(Field(r, "dob")).None?
    ensures d.dob.Some? ==> parseDate(Field(r, "dob")) == d.dob
    ensures d.sex.None? <==> Field(r, "sex") != "m" && Field(r, "sex") != "f"
    ensures d.sex.Some? ==> d.sex.value == Field(r, "sex")
    ensures d.source.None? <==> Field(r, "source") == ""
    ensures d.source.Some? ==> d.source.value == Field(r, "source")
  {
    var ageText := Field(r, "age");
    var dobText := Field(r, "dob");
    var sexText := Field(r, "sex");
    var sourceText := Field(r, "source");
    var age := if ageText != "" then Some(Number(ageText)) else None;
    var dob := if dobText != "" then parseDate(dobText) else None;
    PersonData(
      Field(r, "id"),
      Field(r, "name"),
      Field(r, "en_name"),
      if age.Some? && age.value.Int? then Some(age.value.v) else None,
      dob,
      if sexText == "m" || sexText == "f" then Some(sexText) else None,
      if sourceText != "" then Some(sourceText) else None)
  }

  /** `records.map(...)`: one coerced record per CSV record, in order. */
  function Typed(records: seq<Record>, parseDate: string -> Option<int>): (t: seq<PersonData>)
    ensures |t| == |records|
  {
    if records == [] then [] else [Coerce(records[0], parseDate)] + Typed(records[1..], parseDate)
  }

  /** The coerced record at each position is the coercion of the CSV record
      there. */
  lemma {:induction false} TypedAt(records: seq<Record>, parseDate: string -> Option<int>, k: nat)
    requires k < |records|
    ensures Typed(records, parseDate)[k] == Coerce(records[k], parseDate)
    decreases k
  {
    if k > 0 {
      TypedAt(records[1..], parseDate, k - 1);
    }
  }

  // ---------------------------------------------------------------------
  // The Person table under `createMany({ skipDuplicates: true })`

  function ToPerson(d: PersonData, now: int): Person {
    Person(d.id, d.name, d.enName, d.age, d.dob, d.sex, d.source, now)
  }

  function DataOf(p: Person): PersonData {
    PersonData(p.id, p.name, p.enName, p.age, p.dob, p.sex, p.source)
  }

  /** The stored rows without their `createdAt` stamps. */
  function Datas(s: seq<Person>): (r: seq<PersonData>)
    ensures |r| == |s| && forall k :: 0 <= k < |s| ==> r[k] == DataOf(s[k])
  {
    if s == [] then [] else [DataOf(s[0])] + Datas(s[1..])
  }

  predicate HasId(s: seq<PersonData>, id: string) {
    exists k :: 0 <= k < |s| && s[k].id == id
  }

  predicate HasPersonId(s: seq<Person>, id: string) {
    exists k :: 0 <= k < |s| && s[k].id == id
  }

  predicate IdsUnique(s: seq<PersonData>) {
    forall i, j :: 0 <= i < j < |s| ==> s[i].id != s[j].id
  }

  /** `createMany` of one batch with `skipDuplicates`: each record, in order,
      is inserted with the statement's timestamp unless a row with its id is
      already stored or was inserted earlier in the same batch. */
  function InsertSkipping(s: seq<Person>, batch: seq<PersonData>, now: int): seq<Person>
    decreases |batch|
  {
    if batch == [] then s
    else
      var x := batch[0];
      InsertSkipping(if HasPersonId(s, x.id) then s else s + [ToPerson(x, now)], batch[1..], now)
  }

  /** Reference definition of the intended table contents: each record whose
      id did not occur earlier in the sequence, in order. Every kept record
      is one of the input records. */
  function FirstOccurrences(t: seq<PersonData>): (r: seq<PersonData>)
    ensures |r| <= |t|
    ensures forall k :: 0 <= k < |r| ==> r[k] in t
  {
    if t == [] then []
    else
      var init := t[..|t| - 1];
      var last := t[|t| - 1];
      assert forall k :: 0 <= k < |init| ==> init[k] in t;
      FirstOccurrences(init) + (if HasId(init, last.id) then [] else [last])
  }

  lemma HasIdAppend(a: seq<PersonData>, b: seq<PersonData>, id: string)
    ensures HasId(a + b, id) <==> HasId(a, id) || HasId(b, id)
  {
    if HasId(a + b, id) {
      var k :| 0 <= k < |a + b| && (a + b)[k].id == id;
      if k >= |a| { assert b[k - |a|].id == id; }
    }
    if HasId(b, id) {
      var k :| 0 <= k < |b| && b[k].id == id;
      assert (a + b)[|a| + k] == b[k];
    }
    if HasId(a, id) {
      var k :| 0 <= k < |a| && a[k].id == id;
      assert (a + b)[k] == a[k];
    }
  }

  /** The reference keeps every id of the input and no other. */
  lemma {:induction false} FirstOccurrencesIds(t: seq<PersonData>, id: string)
    ensures HasId(FirstOccurrences(t), id) <==> HasId(t, id)
  {
    if t != [] {
      var init := t[..|t| - 1];
      var last := t[|t| - 1];
      var extra := if HasId(init, last.id) then [] else [last];
      assert t == init + [last];
      FirstOccurrencesIds(init, id);
      HasIdAppend(FirstOccurrences(init), extra, id);
      HasIdAppend(init, [last], id);
      if HasId([last], id) && !HasId(init, id) {
        assert last.id == id;
        assert extra == [last];
        assert HasId(extra, id);
      }
    }
  }

  /** No two kept records share an id. */
  lemma {:induction false} FirstOccurrencesUnique(t: seq<PersonData>)
    ensures IdsUnique(FirstOccurrences(t))
  {
    if t != [] {
      var init := t[..|t| - 1];
      var last := t[|t| - 1];
      FirstOccurrencesUnique(init);
      if !HasId(init, last.id) {
        FirstOccurrencesIds(init, last.id);
        var f := FirstOccurrences(init);
        var r := f + [last];
        forall i, j | 0 <= i < j < |r| ensures r[i].id != r[j].id {
          if j == |f| {
            assert r[i] == f[i];
          }
        }
      }
    }
  }

  /** The first record with a given id is the one kept. */
  lemma {:induction false} FirstOccurrenceKept(t: seq<PersonData>, k: nat)
    requires k < |t|
    requires forall i :: 0 <= i < k ==> t[i].id != t[k].id
    ensures t[k] in FirstOccurrences(t)
  {
    var init := t[..|t| - 1];
    var last := t[|t| - 1];
    if k == |t| - 1 {
      assert forall i :: 0 <= i < |init| ==> init[i] == t[i];
      assert !HasId(init, last.id);
    } else {
      assert init[k] == t[k];
      FirstOccurrenceKept(init, k);
    }
  }

  /** Two records with the same id leave fewer kept records than records. */
  lemma {:induction false} FirstOccurrencesShorter(t: seq<PersonData>, i: nat, j: nat)
    requires i < j < |t| && t[i].id == t[j].id
    ensures |FirstOccurrences(t)| < |t|
  {
    var init := t[..|t| - 1];
    FirstOccurrencesAtMost(init);
    if j == |t| - 1 {
      assert init[i] == t[i];
      assert HasId(init, t[j].id);
    } else {
      assert init[i] == t[i] && init[j] == t[j];
      FirstOccurrencesShorter(init, i, j);
    }
  }

  lemma {:induction false} FirstOccurrencesAtMost(t: seq<PersonData>)
    ensures |FirstOccurrences(t)| <= |t|
  {
    if t != [] {
      FirstOccurrencesAtMost(t[..|t| - 1]);
    }
  }

  lemma HasPersonIdData(s: seq<Person>, id: string)
    ensures HasPersonId(s, id) <==> HasId(Datas(s), id)
  {
    if HasPersonId(s, id) {
      var k :| 0 <= k < |s| && s[k].id == id;
      assert Datas(s)[k].id == id;
    }
    if HasId(Datas(s), id) {
      var k :| 0 <= k < |s| && Datas(s)[k].id == id;
      assert s[k].id == id;
    }
  }

  lemma FirstOccurrencesSnoc(t: seq<PersonData>, x: PersonData)
    ensures FirstOccurrences(t + [x]) == FirstOccurrences(t) + (if HasId(t, x.id) then [] else [x])
  {
    assert (t + [x])[..|t|] == t;
  }

  lemma DatasSnoc(s: seq<Person>, p: Person)
    ensures Datas(s + [p]) == Datas(s) + [DataOf(p)]
  {
  }

  /** `skipDuplicates` seen on the records alone: each record, in order, is
      appended unless its id is already present. */
  function AppendNew(d: seq<PersonData>, batch: seq<PersonData>): seq<PersonData>
    decreases |batch|
  {
    if batch == [] then d
    else AppendNew(if HasId(d, batch[0].id) then d else d + [batch[0]], batch[1..])
  }

  /** Inserting a batch stores exactly the records `AppendNew` keeps. */
  lemma {:induction false} DatasInsertSkipping(s: seq<Person>, batch: seq<PersonData>, now: int)
    ensures Datas(InsertSkipping(s, batch, now)) == AppendNew(Datas(s), batch)
    decreases |batch|
  {
    if batch != [] {
      var x := batch[0];
      HasPersonIdData(s, x.id);
      var s' := if HasPersonId(s, x.id) then s else s + [ToPerson(x, now)];
      if !HasPersonId(s, x.id) {
        DatasSnoc(s, ToPerson(x, now));
      }
      DatasInsertSkipping(s', batch[1..], now);
    }
  }

  /** Two batches in a row keep what their concatenation keeps. */
  lemma {:induction false} AppendNewConcat(d: seq<PersonData>, a: seq<PersonData>, b: seq<PersonData>)
    ensures AppendNew(AppendNew(d, a), b) == AppendNew(d, a + b)
    decreases |a|
  {
    if a == [] {
      assert a + b == b;
    } else {
      var d' := if HasId(d, a[0].id) then d else d + [a[0]];
      assert AppendNew(d, a) == AppendNew(d', a[1..]);
      assert (a + b)[0] == a[0];
      assert (a + b)[1..] == a[1..] + b;
      assert AppendNew(d, a + b) == AppendNew(d', a[1..] + b);
      AppendNewConcat(d', a[1..], b);
    }
  }

  /** Two consecutive slices in a row keep what the joined slice keeps. */
  lemma AppendNewSlices(d: seq<PersonData>, typed: seq<PersonData>, i: nat, j: nat, e: nat)
    requires i <= j <= e <= |typed|
    ensures AppendNew(AppendNew(d, typed[i..j]), typed[j..e]) == AppendNew(d, typed[i..e])
  {
    AppendNewConcat(d, typed[i..j], typed[j..e]);
    SliceSplit(typed, i, j, e);
  }

  /** Appending new records onto the first occurrences of `t` gives the
      first occurrences of `t + batch`. */
  lemma {:induction false} AppendNewFirstOccurrences(t: seq<PersonData>, batch: seq<PersonData>)
    ensures AppendNew(FirstOccurrences(t), batch) == FirstOccurrences(t + batch)
    decreases |batch|
  {
    if batch == [] {
      assert t + batch == t;
    } else {
      var x := batch[0];
      FirstOccurrencesIds(t, x.id);
      FirstOccurrencesSnoc(t, x);
      var d := FirstOccurrences(t);
      var d' := if HasId(d, x.id) then d else d + [x];
      assert AppendNew(d, batch) == AppendNew(d', batch[1..]);
      AppendEmpty(d);
      assert d' == FirstOccurrences(t + [x]);
      AppendNewFirstOccurrences(t + [x], batch[1..]);
      ShiftFirst(t, batch);
    }
  }

  // ---------------------------------------------------------------------
  // The batch loop


  function Min(a: int, b: int): int { if a <= b then a else b }

  /** The batch `typed.slice(b*1000, b*1000 + 1000)`. */
  function Batch(typed: seq<PersonData>, b: nat): (r: seq<PersonData>)
    requires b * 1000 < |typed|
    ensures 0 < |r| <= 1000
  {
    typed[b * 1000..Min(b * 1000 + 1000, |typed|)]
  }

  /** The batches from number `b` on: none once batch `b` would start past
      the end, otherwise each non-empty and at most 1000 records long. */
  function Batches(typed: seq<PersonData>, b: nat): (r: seq<seq<PersonData>>)
    ensures r == [] <==> b * 1000 >= |typed|
    ensures forall k :: 0 <= k < |r| ==> 0 < |r[k]| <= 1000
    decreases |typed| - b * 1000
  {
    if b * 1000 >= |typed| then [] else [Batch(typed, b)] + Batches(typed, b + 1)
  }

  function Concat(s: seq<seq<PersonData>>): seq<PersonData> {
    if s == [] then [] else s[0] + Concat(s[1..])
  }

  /** The batches are non-empty, hold at most 1000 records each, and put
      together give back the records from batch `b` on, in order. */
  lemma {:induction false} BatchesPartition(typed: seq<PersonData>, b: nat)
    ensures Concat(Batches(typed, b)) == typed[Min(b * 1000, |typed|)..]
    ensures forall k :: 0 <= k < |Batches(typed, b)| ==> 0 < |Batches(typed, b)[k]| <= 1000
    decreases |typed| - b * 1000
  {
    if b * 1000 < |typed| {
      BatchesPartition(typed, b + 1);
      var i := b * 1000;
      var j := Min(i + 1000, |typed|);
      assert Min((b + 1) * 1000, |typed|) == j;
      assert typed[i..] == typed[i..j] + typed[j..];
    }
  }

  function FailsAt(fault: Option<Fault>, call: nat): bool {
    fault.Some? && fault.value.call == call
  }

  datatype Outcome = Outcome(persons: seq<Person>, failed: bool)

  /** The loop from batch `b` on: batch `b` is store call `b + 1`, stamped
      with `clock(b + 1)`; a throwing call stops the loop with the earlier
      batches stored. */
  function LoadFrom(s: seq<Person>, typed: seq<PersonData>, b: nat, clock: nat -> int,
                    fault: Option<Fault>): (o: Outcome)
    ensures o.failed ==> fault.Some?
    decreases |typed| - b * 1000
  {
    if b * 1000 >= |typed| then Outcome(s, false)
    else if FailsAt(fault, b + 1) then Outcome(s, true)
    else LoadFrom(InsertSkipping(s, Batch(typed, b), clock(b + 1)), typed, b + 1, clock, fault)
  }

  /** How many records the loop gets through: all of them, or the batches
      before the one that throws. */
  function Reached(typed: seq<PersonData>, fault: Option<Fault>): nat {
    if fault.Some? && fault.value.call >= 1 && (fault.value.call - 1) * 1000 < |typed|
    then (fault.value.call - 1) * 1000
    else |typed|
  }

  /** The loop stops early exactly when a batch call throws before the
      records run out. */
  lemma {:induction false} LoadFromFailed(s: seq<Person>, typed: seq<PersonData>, b: nat,
                                         clock: nat -> int, fault: Option<Fault>)
    requires fault.Some? ==> fault.value.call > b
    ensures Min(b * 1000, |typed|) <= Reached(typed, fault)
    ensures LoadFrom(s, typed, b, clock, fault).failed <==> Reached(typed, fault) < |typed|
    decreases |typed| - b * 1000
  {
    if b * 1000 < |typed| && !FailsAt(fault, b + 1) {
      LoadFromFailed(InsertSkipping(s, Batch(typed, b), clock(b + 1)), typed, b + 1, clock, fault);
    }
  }

  /** Every record is offered once, in order, batch after batch: the loop
      keeps what `AppendNew` keeps of the records reached. */
  lemma {:induction false} LoadFromAppendNew(s: seq<Person>, typed: seq<PersonData>,
                                             b: nat, clock: nat -> int, fault: Option<Fault>)
    requires fault.Some? ==> fault.value.call > b
    ensures Min(b * 1000, |typed|) <= Reached(typed, fault)
    ensures Datas(LoadFrom(s, typed, b, clock, fault).persons) ==
            AppendNew(Datas(s), typed[Min(b * 1000, |typed|)..Reached(typed, fault)])
    decreases |typed| - b * 1000
  {
    LoadFromFailed(s, typed, b, clock, fault);
    if b * 1000 >= |typed| || FailsAt(fault, b + 1) {
      LoadFromStops(s, typed, b, clock, fault);
    } else {
      var s' := InsertSkipping(s, Batch(typed, b), clock(b + 1));
      LoadFromAppendNew(s', typed, b + 1, clock, fault);
      LoadFromStep(s, typed, b, clock, fault);
    }
  }

  lemma LoadFromStops(s: seq<Person>, typed: seq<PersonData>, b: nat, clock: nat -> int, fault: Option<Fault>)
    requires fault.Some? ==> fault.value.call > b
    requires b * 1000 >= |typed| || FailsAt(fault, b + 1)
    ensures Min(b * 1000, |typed|) <= Reached(typed, fault)
    ensures Datas(LoadFrom(s, typed, b, clock, fault).persons) ==
            AppendNew(Datas(s), typed[Min(b * 1000, |typed|)..Reached(typed, fault)])
  {
    var i := Min(b * 1000, |typed|);
    var e := Reached(typed, fault);
    assert i == e;
    assert typed[i..e] == [];
  }

  lemma LoadFromStep(s: seq<Person>, typed: seq<PersonData>, b: nat, clock: nat -> int, fault: Option<Fault>)
    requires fault.Some? ==> fault.value.call > b
    requires b * 1000 < |typed| && !FailsAt(fault, b + 1)
    requires var s' := InsertSkipping(s, Batch(typed, b), clock(b + 1));
             && Min((b + 1) * 1000, |typed|) <= Reached(typed, fault)
             && Datas(LoadFrom(s', typed, b + 1, clock, fault).persons) ==
                AppendNew(Datas(s'), typed[Min((b + 1) * 1000, |typed|)..Reached(typed, fault)])
    ensures Min(b * 1000, |typed|) <= Reached(typed, fault)
    ensures Datas(LoadFrom(s, typed, b, clock, fault).persons) ==
            AppendNew(Datas(s), typed[Min(b * 1000, |typed|)..Reached(typed, fault)])
  {
    var i := b * 1000;
    var e := Reached(typed, fault);
    var batch := Batch(typed, b);
    var s' := InsertSkipping(s, batch, clock(b + 1));
    var j := Min((b + 1) * 1000, |typed|);
    assert batch == typed[i..j];
    DatasInsertSkipping(s, batch, clock(b + 1));
    AppendNewSlices(Datas(s), typed, i, j, e);
    calc {
      Datas(LoadFrom(s, typed, b, clock, fault).persons);
      Datas(LoadFrom(s', typed, b + 1, clock, fault).persons);
      AppendNew(Datas(s'), typed[j..e]);
      AppendNew(AppendNew(Datas(s), batch), typed[j..e]);
      AppendNew(Datas(s), typed[i..e]);
    }
  }

  /** The loop over all coerced records, from an emptied table: it stores
      the first occurrences of the records before the failing batch (all
      of them when no batch fails). */
  lemma LoadAll(typed: seq<PersonData>, clock: nat -> int, fault: Option<Fault>)
    requires fault.Some? ==> fault.value.call > 0
    ensures var o := LoadFrom([], typed, 0, clock, fault);
            && Datas(o.persons) == FirstOccurrences(typed[..Reached(typed, fault)])
            && (o.failed <==> Reached(typed, fault) < |typed|)
  {
    LoadFromFailed([], typed, 0, clock, fault);
    LoadFromAppendNew([], typed, 0, clock, fault);
    var e := Reached(typed, fault);
    AppendNewFirstOccurrences([], typed[..e]);
    assert [] + typed[..e] == typed[0..e];
  }

  // ---------------------------------------------------------------------
  // The whole handler

  /** The reply and the two tables after the request. */
  datatype Effect = Effect(reply: Reply, tables: Tables)

  function RowsOf(records: seq<Record>, now: int): (r: seq<StoredRow>)
    ensures |r| == |records| && forall k :: 0 <= k < |records| ==> r[k] == StoredRow(records[k], now)
  {
    if records == [] then [] else [StoredRow(records[0], now)] + RowsOf(records[1..], now)
  }

  /** The Person path: delete all Persons, then the batch loop over the
      coerced records; `count` is the number of CSV records. */
  function PersonPath(t: Tables, typed: seq<PersonData>, count: nat, clock: nat -> int,
                      fault: Option<Fault>): (e: Effect)
    ensures e.reply == Success("Person", count) || (fault.Some? && e.reply == Failure(fault.value.thrown))
  {
    if FailsAt(fault, 0) then Effect(Failure(fault.value.thrown), t)
    else
      var o := LoadFrom([], typed, 0, clock, fault);
      if o.failed then Effect(Failure(fault.value.thrown), Tables(o.persons, t.rows))
      else Effect(Success("Person", count), Tables(o.persons, t.rows))
  }

  /** The Row path: delete all Rows, then one transaction creating a Row per
      record (all or nothing). */
  function RowPath(t: Tables, records: seq<Record>, clock: nat -> int, fault: Option<Fault>): (e: Effect)
    ensures e.reply == Success("Row", |records|) || (fault.Some? && e.reply == Failure(fault.value.thrown))
    ensures e.tables.persons == t.persons
    ensures e.reply.SeeOther? && e.reply.redirect.Uploaded? ==> e.tables.rows == RowsOf(records, clock(1))
    ensures e.reply.SeeOther? && e.reply.redirect.UploadFailed? ==> e.tables.rows in {t.rows, []}
  {
    if FailsAt(fault, 0) then Effect(Failure(fault.value.thrown), t)
    else if FailsAt(fault, 1) then Effect(Failure(fault.value.thrown), Tables(t.persons, []))
    else Effect(Success("Row", |records|), Tables(t.persons, RowsOf(records, clock(1))))
  }

  /** `POST`. `hasPersonModel` is whether the store client has a `person`
      model; `clock(c)` is the time at store call `c`. */
  function Post(t: Tables, form: Form, hasPersonModel: bool, parseDate: string -> Option<int>,
                clock: nat -> int, fault: Option<Fault>): (e: Effect)
    ensures form.MissingFile? ==> e == Effect(BadRequest("Missing file"), t)
    ensures form.Unreadable? || form.Malformed? ==> e == Effect(Failure(form.thrown), t)
    ensures e.reply.BadRequest? <==> form.MissingFile?
  {
    match form
    case Unreadable(thrown) => Effect(Failure(thrown), t)
    case MissingFile => Effect(BadRequest("Missing file"), t)
    case Malformed(thrown) => Effect(Failure(thrown), t)
    case Parsed(records) => Upload(t, records, hasPersonModel, parseDate, clock, fault)
  }

  /** The upload of parsed CSV records: the Person path when the header has
      the Person columns and the client has a `person` model, else the Row
      path. */
  function Upload(t: Tables, records: seq<Record>, hasPersonModel: bool, parseDate: string -> Option<int>,
                  clock: nat -> int, fault: Option<Fault>): Effect
  {
    if LooksLikePerson(records) && hasPersonModel then PersonPath(t, Typed(records, parseDate), |records|, clock, fault)
    else RowPath(t, records, clock, fault)
  }

  /** The store, with the tables the handler replaces. */
  class Database {
    var persons: seq<Person>
    var rows: seq<StoredRow>

    constructor (t: Tables)
      ensures persons == t.persons && rows == t.rows
    {
      persons := t.persons;
      rows := t.rows;
    }

    method DeleteAllPersons()
      modifies this
      ensures persons == [] && rows == old(rows)
    {
      persons := [];
    }

    method CreateMany(batch: seq<PersonData>, now: int)
      modifies this
      ensures persons == InsertSkipping(old(persons), batch, now) && rows == old(rows)
    {
      persons := InsertSkipping(persons, batch, now);
    }

    method DeleteAllRows()
      modifies this
      ensures rows == [] && persons == old(persons)
    {
      rows := [];
    }

    method CreateRows(records: seq<Record>, now: int)
      modifies this
      ensures rows == old(rows) + RowsOf(records, now) && persons == old(persons)
    {
      rows := rows + RowsOf(records, now);
    }
  }

  /** The Person branch of the handler: clear the table, then insert the
      typed records in batches of 1000 until a store call fails. */
  method UploadPersons(db: Database, typed: seq<PersonData>, count: nat, clock: nat -> int,
                       fault: Option<Fault>) returns (reply: Reply)
    modifies db
    ensures Effect(reply, Tables(db.persons, db.rows)) ==
            PersonPath(Tables(old(db.persons), old(db.rows)), typed, count, clock, fault)
  {
    if FailsAt(fault, 0) { reply := Failure(fault.value.thrown); return; }
    db.DeleteAllPersons();
    var i := 0;
    var b := 0;
    while i < |typed|
      invariant i == b * 1000
      invariant db.rows == old(db.rows)
      invariant fault.Some? && fault.value.call <= b ==> fault.value.call == 0
      invariant LoadFrom(db.persons, typed, b, clock, fault) == LoadFrom([], typed, 0, clock, fault)
      decreases |typed| - i
    {
      if FailsAt(fault, b + 1) {
        assert LoadFrom(db.persons, typed, b, clock, fault) == Outcome(db.persons, true);
        reply := Failure(fault.value.thrown);
        return;
      }
      assert typed[i..Min(i + 1000, |typed|)] == Batch(typed, b);
      db.CreateMany(typed[i..Min(i + 1000, |typed|)], clock(b + 1));
      i := i + 1000;
      b := b + 1;
    }
    assert LoadFrom(db.persons, typed, b, clock, fault) == Outcome(db.persons, false);
    reply := Success("Person", count);
  }

  /** The Row branch of the handler: clear the table, then insert every
      record in one call. */
  method UploadRows(db: Database, records: seq<Record>, clock: nat -> int, fault: Option<Fault>)
    returns (reply: Reply)
    modifies db
    ensures Effect(reply, Tables(db.persons, db.rows)) ==
            RowPath(Tables(old(db.persons), old(db.rows)), records, clock, fault)
  {
    if FailsAt(fault, 0) { reply := Failure(fault.value.thrown); return; }
    db.DeleteAllRows();
    if FailsAt(fault, 1) { reply := Failure(fault.value.thrown); return; }
    db.CreateRows(records, clock(1));
    assert db.rows == RowsOf(records, clock(1));
    reply := Success("Row", |records|);
  }

  method HandlePost(db: Database, form: Form, hasPersonModel: bool, parseDate: string -> Option<int>,
                    clock: nat -> int, fault: Option<Fault>) returns (reply: Reply)
    modifies db
    ensures Effect(reply, Tables(db.persons, db.rows)) ==
            Post(Tables(old(db.persons), old(db.rows)), form, hasPersonModel, parseDate, clock, fault)
  {
    match form {
      case Unreadable(thrown) => reply := Failure(thrown);
      case MissingFile => reply := BadRequest("Missing file");
      case Malformed(thrown) => reply := Failure(thrown);
      case Parsed(records) =>
        if LooksLikePerson(records) && hasPersonModel {
          reply := UploadPersons(db, Typed(records, parseDate), |records|, clock, fault);
        } else {
          reply := UploadRows(db, records, clock, fault);
        }
    }
  }

  // ---------------------------------------------------------------------
  // Properties of the handler

  /** With no failure, a Person upload leaves exactly the first occurrence
      of each id, reports success with `count` equal to the number of CSV
      records, and keeps the Row table. */
  lemma PersonUploadStoresFirstOccurrences(t: Tables, records: seq<Record>,
                                           parseDate: string -> Option<int>, clock: nat -> int)
    requires LooksLikePerson(records)
    ensures var e := Post(t, Parsed(records), true, parseDate, clock, None);
            && e.reply == Success("Person", |records|)
            && Datas(e.tables.persons) == FirstOccurrences(Typed(records, parseDate))
            && IdsUnique(Datas(e.tables.persons))
            && e.tables.rows == t.rows
  {
    var typed := Typed(records, parseDate);
    PostTakesPersonPath(t, records, parseDate, clock, None);
    PersonPathStores(t, typed, |records|, clock);
    FirstOccurrencesUnique(typed);
  }

  /** A CSV with the Person columns, with a `person` model, takes the
      Person path over the coerced records. */
  lemma PostTakesPersonPath(t: Tables, records: seq<Record>, parseDate: string -> Option<int>,
                            clock: nat -> int, fault: Option<Fault>)
    requires LooksLikePerson(records)
    ensures Post(t, Parsed(records), true, parseDate, clock, fault) ==
            PersonPath(t, Typed(records, parseDate), |records|, clock, fault)
  {
    var typed := Typed(records, parseDate);
    assert Upload(t, records, true, parseDate, clock, fault) == PersonPath(t, typed, |records|, clock, fault);
    assert Post(t, Parsed(records), true, parseDate, clock, fault) ==
           Upload(t, records, true, parseDate, clock, fault);
  }

  /** Without failure the Person path reports success and stores the first
      occurrences of the coerced records. */
  lemma PersonPathStores(t: Tables, typed: seq<PersonData>, count: nat, clock: nat -> int)
    ensures var e := PersonPath(t, typed, count, clock, None);
            && e.reply == Success("Person", count)
            && Datas(e.tables.persons) == FirstOccurrences(typed)
            && e.tables.rows == t.rows
  {
    LoadAll(typed, clock, None);
    TakeAll(typed);
  }

  /** A batch that throws ends the upload with a failure redirect; the
      batches before it stay stored. */
  lemma FailingBatchKeepsEarlierBatches(t: Tables, records: seq<Record>,
                                        parseDate: string -> Option<int>, clock: nat -> int,
                                        c: nat, thrown: Option<string>)
    requires LooksLikePerson(records)
    requires 1 <= c && (c - 1) * 1000 < |records|
    ensures var e := Post(t, Parsed(records), true, parseDate, clock, Some(Fault(c, thrown)));
            && e.reply == Failure(thrown)
            && Datas(e.tables.persons) == FirstOccurrences(Typed(records, parseDate)[..(c - 1) * 1000])
            && e.tables.rows == t.rows
  {
    var typed := Typed(records, parseDate);
    PostTakesPersonPath(t, records, parseDate, clock, Some(Fault(c, thrown)));
    PersonPathFails(t, typed, |records|, clock, c, thrown);
  }

  /** A batch call that throws ends the Person path with a failure; the
      batches before it stay stored. */
  lemma PersonPathFails(t: Tables, typed: seq<PersonData>, count: nat, clock: nat -> int,
                        c: nat, thrown: Option<string>)
    requires 1 <= c && (c - 1) * 1000 < |typed|
    ensures var e := PersonPath(t, typed, count, clock, Some(Fault(c, thrown)));
            && e.reply == Failure(thrown)
            && Datas(e.tables.persons) == FirstOccurrences(typed[..(c - 1) * 1000])
            && e.tables.rows == t.rows
  {
    LoadAll(typed, clock, Some(Fault(c, thrown)));
  }

  /** The reported count is the number of CSV records even when duplicate
      ids were skipped. */
  lemma CountIncludesSkippedDuplicates(t: Tables, records: seq<Record>,
                                       parseDate: string -> Option<int>, clock: nat -> int, i: nat, j: nat)
    requires LooksLikePerson(records)
    requires i < j < |records| && Field(records[i], "id") == Field(records[j], "id")
    ensures var e := Post(t, Parsed(records), true, parseDate, clock, None);
            && e.reply == Success("Person", |records|)
            && |e.tables.persons| < |records|
  {
    var typed := Typed(records, parseDate);
    PersonUploadStoresFirstOccurrences(t, records, parseDate, clock);
    TypedAt(records, parseDate, i);
    TypedAt(records, parseDate, j);
    FirstOccurrencesShorter(typed, i, j);
  }

  /** A parsed CSV is always answered by a redirect: success on the Person
      or Row table with the record count, or failure when a store call threw. */
  lemma ParsedReplies(t: Tables, records: seq<Record>, hasPersonModel: bool,
                      parseDate: string -> Option<int>, clock: nat -> int, fault: Option<Fault>)
    ensures var r := Post(t, Parsed(records), hasPersonModel, parseDate, clock, fault).reply;
            || r == Success("Person", |records|)
            || r == Success("Row", |records|)
            || (fault.Some? && r == Failure(fault.value.thrown))
  {
    var e := Post(t, Parsed(records), hasPersonModel, parseDate, clock, fault);
    if LooksLikePerson(records) && hasPersonModel {
      assert e == PersonPath(t, Typed(records, parseDate), |records|, clock, fault);
    } else {
      assert e == RowPath(t, records, clock, fault);
    }
  }

  /** An empty CSV does not look like a Person file: it takes the Row path,
      clearing the Row table and reporting a count of 0. */
  lemma EmptyCsvTakesRowPath(t: Tables, hasPersonModel: bool, parseDate: string -> Option<int>, clock: nat -> int)
    ensures Post(t, Parsed([]), hasPersonModel, parseDate, clock, None) ==
            Effect(Success("Row", 0), Tables(t.persons, []))
  {
    assert !LooksLikePerson([]);
  }

  /** On the Row path, without failure, the Row table is replaced by one row
      per record, in order, and the Person table is untouched. */
  lemma RowUploadReplacesRows(t: Tables, records: seq<Record>, hasPersonModel: bool,
                              parseDate: string -> Option<int>, clock: nat -> int)
    requires !(LooksLikePerson(records) && hasPersonModel)
    ensures var e := Post(t, Parsed(records), hasPersonModel, parseDate, clock, None);
            && e.reply == Success("Row", |records|)
            && e.tables.persons == t.persons
            && |e.tables.rows| == |records|
            && forall k :: 0 <= k < |records| ==> e.tables.rows[k].data == records[k]
  {
  }

  /** Whatever is thrown, and wherever, the reply is the failure redirect
      with the thrown message, or "Upload failed" for a non-`Error`. */
  lemma ThrownErrorsRedirect(t: Tables, form: Form, hasPersonModel: bool,
                             parseDate: string -> Option<int>, clock: nat -> int, fault: Option<Fault>)
    requires form.Unreadable? || form.Malformed?
    ensures Post(t, form, hasPersonModel, parseDate, clock, fault) == Effect(Failure(form.thrown), t)
    ensures Params(Failure(form.thrown).redirect) == [("ok", "false"), ("error", ErrorText(form.thrown))]
  {
    FailureParamsPairs(form.thrown);
  }

  /** A form without a file is answered 400 and nothing changes. */
  lemma MissingFileIsBadRequest(t: Tables, hasPersonModel: bool,
                                parseDate: string -> Option<int>, clock: nat -> int, fault: Option<Fault>)
    ensures var e := Post(t, MissingFile, hasPersonModel, parseDate, clock, fault);
            Status(e.reply) == 400 && e.reply.error == "Missing file" && e.tables == t
  {
  }

  /** A record whose age cell is the text of a natural number `n`, with sex
      `m` and empty `dob` and `source` cells, becomes a Person aged `n`, sex
      `m`, with no date of birth and no source, keeping its id and names. */
  lemma SampleRecord(r: Record, n: nat, parseDate: string -> Option<int>)
    requires Field(r, "age") == NatToString(n) && Field(r, "sex") == "m"
    requires Field(r, "dob") == "" && Field(r, "source") == ""
    ensures Coerce(r, parseDate) ==
            PersonData(Field(r, "id"), Field(r, "name"), Field(r, "en_name"), Some(n), None, Some("m"), None)
  {
    NumberNatToString(n);
    var d := Coerce(r, parseDate);
    assert d.age == Some(n);
    assert d.dob == None && d.sex == Some("m") && d.source == None;
  }
}
