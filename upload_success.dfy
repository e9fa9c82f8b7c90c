/** The `/upload/success` page: decodes the redirect query written by the
    upload route into the payload it displays. */
module UploadSuccess {
  import opened Wrappers
  import opened Js
  import opened Url
  import UploadRoute
  import Store

  /** An entry of the page's `searchParams` object: a name given once is a
      string, a name given several times is an array of its values. */
  datatype Param = One(text: string) | Many(texts: seq<string>)

  /** All values given for a name, in order. */
  function Values(q: Query, name: string): (r: seq<string>)
    ensures |r| <= |q|
    ensures r == [] <==> Get(q, name).None?
    ensures r != [] ==> Get(q, name) == Some(r[0])
  {
    if q == [] then []
    else if q[0].0 == name then [q[0].1] + Values(q[1..], name)
    else
      assert forall k :: 1 <= k < |q| ==> q[k] == q[1..][k - 1];
      Values(q[1..], name)
  }

  function Entry(q: Query, name: string): Option<Param> {
    var vs := Values(q, name);
    if vs == [] then None else if |vs| == 1 then Some(One(vs[0])) else Some(Many(vs))
  }

  /** JavaScript truthiness of an entry: a non-empty string or any array. */
  predicate Truthy(p: Option<Param>) {
    p.Some? && (p.value.Many? || p.value.text != "")
  }

  /** `Number(entry)`: an array converts through its comma-joined text. */
  function NumberOf(p: Param): Num {
    match p
    case One(s) => Number(s)
    case Many(vs) => if vs == [] then Number("") else Number(Join(vs, ','))
  }

  /** The payload shown: `{ok: true, table, count}` or `{ok: false, error}`;
      `None` is `null`. */
  datatype Payload =
    | Succeeded(table: Option<Param>, count: Option<Num>)
    | Failed(error: Option<Param>)

  function Decode(q: Query): (p: Payload)
    ensures p.Succeeded? <==> Entry(q, "ok") == Some(One("true"))
  {
    var ok := Entry(q, "ok") == Some(One("true"));
    var table := if Truthy(Entry(q, "table")) then Entry(q, "table") else None;
    var count := if Truthy(Entry(q, "count")) then Some(NumberOf(Entry(q, "count").value)) else None;
    var error := if Truthy(Entry(q, "error")) then Entry(q, "error") else None;
    if ok then Succeeded(table, count) else Failed(error)
  }

  // ---------------------------------------------------------------------
  // Properties

  /** Missing or empty `table`, `count` and `error` decode to `null`; a
      `count` written as a natural number decodes to that number. */
  lemma DecodeFields(q: Query, n: nat)
    ensures Decode(q).Succeeded? && Values(q, "table") == [] ==> Decode(q).table.None?
    ensures Decode(q).Succeeded? && Values(q, "count") == [] ==> Decode(q).count.None?
    ensures Decode(q).Failed? && Values(q, "error") == [] ==> Decode(q).error.None?
    ensures Decode(q).Failed? && Values(q, "error") == [""] ==> Decode(q).error.None?
    ensures Decode(q).Succeeded? && Values(q, "count") == [NatToString(n)] ==>
              Decode(q).count == Some(Int(n))
  {
    DecodeNulls(q);
    DecodeCount(q, n);
  }

  /** The `null` cases of DecodeFields. */
  lemma DecodeNulls(q: Query)
    ensures Decode(q).Succeeded? && Values(q, "table") == [] ==> Decode(q).table.None?
    ensures Decode(q).Succeeded? && Values(q, "count") == [] ==> Decode(q).count.None?
    ensures Decode(q).Failed? && Values(q, "error") == [] ==> Decode(q).error.None?
    ensures Decode(q).Failed? && Values(q, "error") == [""] ==> Decode(q).error.None?
  {
  }

  /** The count case of DecodeFields. */
  lemma DecodeCount(q: Query, n: nat)
    ensures Decode(q).Succeeded? && Values(q, "count") == [NatToString(n)] ==>
              Decode(q).count == Some(Int(n))
  {
    if Values(q, "count") == [NatToString(n)] {
      assert Entry(q, "count") == Some(One(NatToString(n)));
      NumberNatToString(n);
    }
  }

  lemma ValuesOfPairs(a: string, x: string, b: string, y: string, c: string, z: string)
    requires a != b && a != c && b != c
    ensures Values([(a, x), (b, y), (c, z)], a) == [x]
    ensures Values([(a, x), (b, y), (c, z)], b) == [y]
    ensures Values([(a, x), (b, y), (c, z)], c) == [z]
  {
    var q := [(a, x), (b, y), (c, z)];
    assert q[1..] == [(b, y), (c, z)];
    assert q[1..][1..] == [(c, z)];
  }

  /** The success redirect of the upload route decodes to
      `{ok: true, table, count}` with the count it wrote. */
  lemma SuccessRoundTrip(table: string, count: nat)
    requires table != ""
    ensures Decode(UploadRoute.SuccessParams(table, count)) ==
            Succeeded(Some(One(table)), Some(Int(count)))
  {
    var c := NatToString(count);
    UploadRoute.SuccessParamsPairs(table, count);
    SuccessEntries(table, c);
    NumberNatToString(count);
    assert NumberOf(One(c)) == Int(count);
  }

  /** The entries of the success query, for any table and count text. */
  lemma SuccessEntries(table: string, c: string)
    ensures var q := [("ok", "true"), ("table", table), ("count", c)];
            && Entry(q, "ok") == Some(One("true"))
            && Entry(q, "table") == Some(One(table))
            && Entry(q, "count") == Some(One(c))
            && Entry(q, "error") == None
  {
    var q := [("ok", "true"), ("table", table), ("count", c)];
    ValuesOfPairs("ok", "true", "table", table, "count", c);
    assert Values(q, "error") == [] by {
      assert Get(q, "error").None?;
    }
  }

  /** The failure redirect decodes to `{ok: false, error}`, where an empty
      message becomes `null`. */
  lemma FailureRoundTrip(thrown: Option<string>)
    ensures Decode(UploadRoute.FailureParams(thrown)) ==
            Failed(if UploadRoute.ErrorText(thrown) == "" then None
                   else Some(One(UploadRoute.ErrorText(thrown))))
  {
    var q := UploadRoute.FailureParams(thrown);
    UploadRoute.FailureParamsPairs(thrown);
    var m := UploadRoute.ErrorText(thrown);
    assert q[1..] == [("error", m)];
    assert Values(q, "ok") == ["false"];
    assert Values(q, "error") == [m];
  }

  /** Every redirect of the upload handler decodes to the outcome it
      reports: a success payload naming the table and counting every CSV
      record, or a failure payload. */
  lemma HandlerRoundTrip(t: Store.Tables, records: seq<Store.Record>, hasPersonModel: bool,
                         parseDate: string -> Option<int>, clock: nat -> int, fault: Option<UploadRoute.Fault>)
    ensures var e := UploadRoute.Post(t, UploadRoute.Parsed(records), hasPersonModel, parseDate, clock, fault);
            && e.reply.SeeOther?
            && (Decode(UploadRoute.Params(e.reply.redirect)).Succeeded? ==>
                  Decode(UploadRoute.Params(e.reply.redirect)).count == Some(Int(|records|)) &&
                  Decode(UploadRoute.Params(e.reply.redirect)).table in {Some(One("Person")), Some(One("Row"))})
            && (Decode(UploadRoute.Params(e.reply.redirect)).Failed? ==> fault.Some?)
  {
    UploadRoute.ParsedReplies(t, records, hasPersonModel, parseDate, clock, fault);
    SuccessRoundTrip("Person", |records|);
    SuccessRoundTrip("Row", |records|);
    if fault.Some? {
      FailureRoundTrip(fault.value.thrown);
    }
  }
}
