/** The grid home page: it turns AG Grid's filter model into the query it
    sends to the rows route, derives one column per key of the rows it
    receives, and shows how many rows match. */
module GridHome {
  import opened Wrappers
  import opened Js
  import opened Url
  import opened Store
  import RowsRoute

  // ---------------------------------------------------------------------
  // The filter model and the query

  /** One column's entry in the filter model. Absent text fields are `""`,
      an absent `filter` is `None` (a number filter's value is held as its
      `toString()` text) and absent `values` are empty. */
  datatype ColumnFilter = ColumnFilter(filterType: string, kind: string, filter: Option<string>, values: seq<string>)

  /** `Object.entries(filters)`: column keys with their entries, `None`
      standing for a null entry. */
  type Entries = seq<(string, Option<ColumnFilter>)>

  /** Object keys are distinct. */
  predicate DistinctKeys(entries: Entries) {
    forall i, j :: 0 <= i < j < |entries| ==> entries[i].0 != entries[j].0
  }

  /** The comparison prefix for a number filter's type; `None` for a type
      the code does not know. */
  function NumberPrefix(kind: string): (p: Option<string>)
    ensures p.Some? ==> kind != "" && |p.value| <= 2
  {
    if kind == "greaterThan" || kind == "gt" then Some(">")
    else if kind == "lessThan" || kind == "lt" then Some("<")
    else if kind == "greaterThanOrEqual" || kind == "gte" then Some(">=")
    else if kind == "lessThanOrEqual" || kind == "lte" then Some("<=")
    else if kind == "equals" || kind == "eq" then Some("")
    else None
  }

  /** The value one entry appends under its key, if any. */
  function ParamValue(value: Option<ColumnFilter>): Option<string> {
    if value.None? || value.value.filterType == "" then None
    else
      var f := value.value;
      if f.filterType == "number" then
        if f.kind != "" && f.filter.Some? && NumberPrefix(f.kind).Some? then
          Some(NumberPrefix(f.kind).value + NumToString(ParseInt(f.filter.value)))
        else None
      else if f.filterType == "text" then
        if f.filter.Some? && f.filter.value != "" then Some(f.filter.value) else None
      else if f.filterType == "set" then
        if |f.values| > 0 then Some(f.values[0]) else None
      else None
  }

  /** The pairs the entries append, in entry order: at most one per entry. */
  function Params(entries: Entries): (r: Query)
    ensures |r| <= |entries|
    decreases |entries|
  {
    if entries == [] then []
    else
      var last := entries[|entries| - 1];
      var v := ParamValue(last.1);
      Params(entries[..|entries| - 1]) + (if v.Some? then [(last.0, v.value)] else [])
  }

  /** The whole query: `limit=1000` first, then the filters. */
  function GridQuery(entries: Entries): Query {
    [("limit", "1000")] + Params(entries)
  }

  /** The `forEach` callback of `fetchData`: the pair one entry appends,
      by filter type and, for numbers, by comparison type. */
  method AppendEntry(params: Query, key: string, value: Option<ColumnFilter>) returns (r: Query)
    ensures r == params + (if ParamValue(value).Some? then [(key, ParamValue(value).value)] else [])
  {
    r := params;
    if value.Some? && value.value.filterType != "" {
      var f := value.value;
      if f.filterType == "number" {
        if f.kind != "" && f.filter.Some? {
          var val := ParseInt(f.filter.value);
          if f.kind == "greaterThan" || f.kind == "gt" {
            r := Append(r, key, ">" + NumToString(val));
          } else if f.kind == "lessThan" || f.kind == "lt" {
            r := Append(r, key, "<" + NumToString(val));
          } else if f.kind == "greaterThanOrEqual" || f.kind == "gte" {
            r := Append(r, key, ">=" + NumToString(val));
          } else if f.kind == "lessThanOrEqual" || f.kind == "lte" {
            r := Append(r, key, "<=" + NumToString(val));
          } else if f.kind == "equals" || f.kind == "eq" {
            assert "" + NumToString(val) == NumToString(val);
            r := Append(r, key, NumToString(val));
          }
        }
      } else if f.filterType == "text" {
        if f.filter.Some? && f.filter.value != "" {
          r := Append(r, key, f.filter.value);
        }
      } else if f.filterType == "set" {
        if |f.values| > 0 {
          r := Append(r, key, f.values[0]);
        }
      }
    }
  }

  /** `fetchData`'s loop over the filter model. */
  method FetchParams(entries: Entries) returns (params: Query)
    ensures params == GridQuery(entries)
    ensures params[0] == ("limit", "1000") && |params| <= |entries| + 1
  {
    params := [];
    params := Append(params, "limit", "1000");
    var i := 0;
    while i < |entries|
      invariant 0 <= i <= |entries|
      invariant params == [("limit", "1000")] + Params(entries[..i])
      invariant |params| <= i + 1
    {
      assert entries[..i + 1][..i] == entries[..i];
      assert entries[..i + 1][i] == entries[i];
      params := AppendEntry(params, entries[i].0, entries[i].1);
      i := i + 1;
    }
    assert entries[..i] == entries;
  }

  /** Each entry contributes at most one pair, in entry order: the pairs of
      two lists of entries are the pairs of the first followed by those of
      the second, and one entry gives its value under its key or nothing. */
  lemma {:induction false} ParamsConcat(a: Entries, b: Entries)
    ensures Params(a + b) == Params(a) + Params(b)
    decreases |b|
  {
    if b == [] {
      assert a + b == a;
    } else {
      var ab := a + b;
      assert ab[..|ab| - 1] == a + b[..|b| - 1];
      assert ab[|ab| - 1] == b[|b| - 1];
      ParamsConcat(a, b[..|b| - 1]);
    }
  }

  lemma ParamsOne(key: string, value: Option<ColumnFilter>)
    ensures Params([(key, value)]) ==
              if ParamValue(value).Some? then [(key, ParamValue(value).value)] else []
  {
    assert [(key, value)][..0] == [];
  }

  /** An entry that is null, or has no `filterType`, appends nothing;
      so do a number filter without a type or a value or with an unknown
      type, an empty text filter and an empty set filter. */
  lemma SkippedEntries(f: ColumnFilter)
    ensures ParamValue(None) == None
    ensures f.filterType == "" ==> ParamValue(Some(f)) == None
    ensures f.filterType == "number" && (f.kind == "" || f.filter.None? || NumberPrefix(f.kind).None?) ==>
              ParamValue(Some(f)) == None
    ensures f.filterType == "text" && (f.filter.None? || f.filter == Some("")) ==> ParamValue(Some(f)) == None
    ensures f.filterType == "set" && f.values == [] ==> ParamValue(Some(f)) == None
  {
  }

  /** A key no entry has gets no pair. */
  lemma {:induction false} ParamsWithoutKey(entries: Entries, key: string)
    requires forall j :: 0 <= j < |entries| ==> entries[j].0 != key
    ensures Get(Params(entries), key) == None
    decreases |entries|
  {
    if entries != [] {
      var prefix := entries[..|entries| - 1];
      var last := entries[|entries| - 1];
      var v := ParamValue(last.1);
      var tail: Query := if v.Some? then [(last.0, v.value)] else [];
      ParamsWithoutKey(prefix, key);
      GetConcat(Params(prefix), tail, key);
    }
  }

  /** With distinct keys, the route reads under a key exactly the value that
      key's entry appended. */
  lemma {:induction false} GridGet(entries: Entries, i: nat)
    requires DistinctKeys(entries) && i < |entries| && entries[i].0 != "limit"
    ensures Get(GridQuery(entries), entries[i].0) == ParamValue(entries[i].1)
    decreases |entries|
  {
    var key := entries[i].0;
    var n := |entries| - 1;
    var prefix := entries[..n];
    var last := entries[n];
    var v := ParamValue(last.1);
    var tail: Query := if v.Some? then [(last.0, v.value)] else [];
    var head: Query := [("limit", "1000")];
    assert GridQuery(entries) == (head + Params(prefix)) + tail;
    GetConcat(head + Params(prefix), tail, key);
    GetConcat(head, Params(prefix), key);
    if i == n {
      ParamsWithoutKey(prefix, key);
    } else {
      GridGet(prefix, i);
      assert GridQuery(prefix) == head + Params(prefix);
    }
  }

  /** A key no entry has is not sent. */
  lemma GridAbsent(entries: Entries, key: string)
    requires key != "limit" && forall j :: 0 <= j < |entries| ==> entries[j].0 != key
    ensures Get(GridQuery(entries), key) == None
  {
    ParamsWithoutKey(entries, key);
    GetConcat([("limit", "1000")], Params(entries), key);
  }

  // ---------------------------------------------------------------------
  // The query at the rows route

  /** `parseInt` reads the texts `1000` and `1` as those numbers. */
  lemma ThousandParses()
    ensures ParseInt("1000") == Int(1000) && ParseInt("1") == Int(1)
  {
    var d := "1000";
    assert d[..3] == "100" && d[..3][..2] == "10" && d[..3][..2][..1] == "1";
    assert DigitsValue("1") == 1;
    assert DigitsValue("10") == 10;
    assert DigitsValue("100") == 100;
    assert DigitsValue(d) == 1000;
    ParseIntDigits(d);
    ParseIntDigits("1");
  }

  /** A query whose limit is the text `1000` is read as limit 1000, and one
      without a page as page 1. */
  lemma ThousandAtRoute(q: Query)
    requires Get(q, "limit") == Some("1000")
    ensures RowsRoute.LimitOf(q) == Int(1000)
    ensures Get(q, "page").None? ==> RowsRoute.PageOf(q) == Int(1)
  {
    var limit := Get(q, "limit");
    var page := Get(q, "page");
    ThousandParses();
    assert RowsRoute.OrDefault(limit, "1000") == "1000";
    assert page.None? ==> RowsRoute.OrDefault(page, "1") == "1";
  }

  /** The route always reads a limit of 1000, whatever filters follow it,
      and page 1 unless some column is called `page`. */
  lemma RouteReadsPaging(entries: Entries)
    ensures RowsRoute.LimitOf(GridQuery(entries)) == Int(1000)
    ensures (forall j :: 0 <= j < |entries| ==> entries[j].0 != "page") ==>
              RowsRoute.PageOf(GridQuery(entries)) == Int(1)
  {
    var q := GridQuery(entries);
    var head: Query := [("limit", "1000")];
    assert Get(head, "limit") == Some("1000");
    GetConcat(head, Params(entries), "limit");
    if forall j :: 0 <= j < |entries| ==> entries[j].0 != "page" {
      GridAbsent(entries, "page");
    }
    ThousandAtRoute(q);
  }

  /** The value a number filter sends, for a natural number. */
  lemma NumberValue(f: ColumnFilter, n: nat, prefix: string)
    requires f.filterType == "number" && f.filter == Some(NatToString(n)) && NumberPrefix(f.kind) == Some(prefix)
    ensures ParamValue(Some(f)) == Some(prefix + NatToString(n))
  {
    var t := NatToString(n);
    assert IntToString(n) == t;
    ParseIntToString(n);
    assert NumToString(ParseInt(f.filter.value)) == t;
  }

  /** The age condition the route builds from a prefixed number. */
  lemma PrefixedAgeAtRoute(q: Query, prefix: string, n: nat)
    requires Get(q, "age") == Some(prefix + NatToString(n))
    ensures prefix == ">" ==> RowsRoute.WhereOf(q).age == Some(RowsRoute.Gt(Int(n)))
    ensures prefix == "<" ==> RowsRoute.WhereOf(q).age == Some(RowsRoute.Lt(Int(n)))
    ensures prefix == "" ==> RowsRoute.WhereOf(q).age == Some(RowsRoute.Equals(n))
  {
    if prefix == ">" {
      RowsRoute.GtQuery(q, n);
    } else if prefix == "<" {
      RowsRoute.LtQuery(q, n);
    } else if prefix == "" {
      assert prefix + NatToString(n) == NatToString(n);
      RowsRoute.BareNumberQuery(q, n);
    }
  }

  /** The entry for `age` is what the route reads under `age`. */
  lemma AgeEntrySent(entries: Entries, i: nat, f: ColumnFilter)
    requires DistinctKeys(entries) && i < |entries| && entries[i] == ("age", Some(f))
    ensures Get(GridQuery(entries), "age") == ParamValue(Some(f))
  {
    assert entries[i].0 == "age" && entries[i].1 == Some(f);
    assert "age" != "limit";
    GridGet(entries, i);
  }

  /** Greater than, less than and equals on the `age` column reach the route
      as the matching condition; an unknown type sets none. */
  lemma AgeFilterAtRoute(entries: Entries, i: nat, f: ColumnFilter, n: nat)
    requires DistinctKeys(entries) && i < |entries| && entries[i] == ("age", Some(f))
    requires f.filterType == "number" && f.filter == Some(NatToString(n))
    ensures (f.kind == "greaterThan" || f.kind == "gt") ==>
              RowsRoute.WhereOf(GridQuery(entries)).age == Some(RowsRoute.Gt(Int(n)))
    ensures (f.kind == "lessThan" || f.kind == "lt") ==>
              RowsRoute.WhereOf(GridQuery(entries)).age == Some(RowsRoute.Lt(Int(n)))
    ensures (f.kind == "equals" || f.kind == "eq") ==>
              RowsRoute.WhereOf(GridQuery(entries)).age == Some(RowsRoute.Equals(n))
    ensures NumberPrefix(f.kind).None? ==> RowsRoute.WhereOf(GridQuery(entries)).age.None?
  {
    var q := GridQuery(entries);
    AgeEntrySent(entries, i, f);
    ExactPrefix(f.kind);
    if NumberPrefix(f.kind).Some? {
      var prefix := NumberPrefix(f.kind).value;
      NumberValue(f, n, prefix);
      PrefixedAgeAtRoute(q, prefix, n);
    }
  }

  /** Greater-or-equal and less-or-equal on the `age` column reach the
      route as `>=N` and `<=N`, which it reads through its `>` and `<`
      branches as a NaN bound, so the answer is an empty array. */
  lemma InclusiveAgeFilterYieldsEmpty(entries: Entries, i: nat, f: ColumnFilter, n: nat, t: Tables)
    requires DistinctKeys(entries) && i < |entries| && entries[i] == ("age", Some(f))
    requires f.filterType == "number" && f.filter == Some(NatToString(n))
    requires f.kind == "greaterThanOrEqual" || f.kind == "gte" || f.kind == "lessThanOrEqual" || f.kind == "lte"
    ensures RowsRoute.Handle(GridQuery(entries), t, false) == RowsRoute.Bare([])
  {
    var q := GridQuery(entries);
    AgeEntrySent(entries, i, f);
    InclusivePrefix(f.kind);
    var prefix := NumberPrefix(f.kind).value;
    NumberValue(f, n, prefix);
    InclusiveAgeAtRoute(q, prefix, n, t);
  }

  /** The strict and equality number types map to `>`, `<` and no prefix. */
  lemma ExactPrefix(kind: string)
    ensures kind == "greaterThan" || kind == "gt" ==> NumberPrefix(kind) == Some(">")
    ensures kind == "lessThan" || kind == "lt" ==> NumberPrefix(kind) == Some("<")
    ensures kind == "equals" || kind == "eq" ==> NumberPrefix(kind) == Some("")
  {
    if kind == "lessThan" || kind == "lt" {
      assert kind[0] == 'l';
    } else if kind == "equals" || kind == "eq" {
      assert kind[0] == 'e';
    }
  }

  /** The inclusive number types map to the `>=` and `<=` prefixes. */
  lemma InclusivePrefix(kind: string)
    requires kind == "greaterThanOrEqual" || kind == "gte" || kind == "lessThanOrEqual" || kind == "lte"
    ensures NumberPrefix(kind) == Some(">=") || NumberPrefix(kind) == Some("<=")
  {
    if kind == "greaterThanOrEqual" || kind == "lessThanOrEqual" {
      assert |kind| > 11 && kind[1] != 't';
    } else {
      assert |kind| == 3 && kind[2] == 'e';
    }
  }

  /** An inclusive prefix makes the route's age condition invalid. */
  lemma InclusiveAgeAtRoute(q: Query, prefix: string, n: nat, t: Tables)
    requires prefix == ">=" || prefix == "<="
    requires Get(q, "age") == Some(prefix + NatToString(n))
    ensures RowsRoute.Handle(q, t, false) == RowsRoute.Bare([])
  {
    RowsRoute.NatTextPlain(n);
    if prefix == ">=" {
      RowsRoute.GteQueryYieldsEmpty(q, t, NatToString(n));
    } else {
      RowsRoute.LteQueryYieldsEmpty(q, t, NatToString(n));
    }
  }

  // ---------------------------------------------------------------------
  // Columns

  /** A row as JSON: an object with its keys in order, an array, or
      anything else (null, a primitive). */
  datatype JsonRow = ObjectRow(keys: seq<string>) | ArrayRow | OtherRow

  /** `Object.keys(row)` for the rows that count: objects that are not arrays. */
  function KeysOf(row: JsonRow): seq<string> {
    if row.ObjectRow? then row.keys else []
  }

  /** The keys of the rows, row after row. */
  function AllKeys(rows: seq<JsonRow>): seq<string>
    decreases |rows|
  {
    if rows == [] then [] else AllKeys(rows[..|rows| - 1]) + KeysOf(rows[|rows| - 1])
  }

  /** `keySet.add(k)`: a JavaScript `Set` remembers insertion order and
      ignores a key it already holds. */
  function Add(keys: seq<string>, k: string): seq<string> {
    if k in keys then keys else keys + [k]
  }

  /** The `Set` after adding the keys one by one: no longer than the keys
      added, and holding only those keys. */
  function Dedup(s: seq<string>): (r: seq<string>)
    ensures |r| <= |s|
    ensures forall k :: 0 <= k < |r| ==> r[k] in s
    decreases |s|
  {
    if s == [] then [] else Add(Dedup(s[..|s| - 1]), s[|s| - 1])
  }

  predicate Distinct(s: seq<string>) {
    forall i, j :: 0 <= i < j < |s| ==> s[i] != s[j]
  }

  /** The position of the first occurrence. */
  function Position(s: seq<string>, x: string): (p: nat)
    requires x in s
    ensures p < |s| && s[p] == x && x !in s[..p]
  {
    if s[0] == x then 0
    else
      assert x in s[1..] by { var j :| 0 <= j < |s| && s[j] == x; assert s[1..][j - 1] == x; }
      var p := 1 + Position(s[1..], x);
      assert s[..p] == [s[0]] + s[1..][..p - 1];
      p
  }

  /** The first occurrence is the only index with its property. */
  lemma PositionUnique(s: seq<string>, x: string, r: nat)
    requires r < |s| && s[r] == x && x !in s[..r]
    ensures Position(s, x) == r
  {
    var p := Position(s, x);
    if p < r {
      assert false;
    } else if r < p {
      assert false;
    }
  }

  /** Appending leaves earlier first occurrences in place. */
  lemma PositionAppend(s: seq<string>, y: string, x: string)
    requires x in s
    ensures x in s + [y] && Position(s + [y], x) == Position(s, x)
  {
    var p := Position(s, x);
    assert (s + [y])[..p] == s[..p];
    PositionUnique(s + [y], x, p);
  }

  /** The `Set` holds each key once, holds exactly the keys added, and lists
      them in the order of their first addition. */
  lemma {:induction false} DedupFacts(s: seq<string>)
    ensures Distinct(Dedup(s))
    ensures forall x :: x in Dedup(s) <==> x in s
    ensures forall i, j :: 0 <= i < j < |Dedup(s)| ==> Position(s, Dedup(s)[i]) < Position(s, Dedup(s)[j])
    decreases |s|
  {
    if s != [] {
      var prefix := s[..|s| - 1];
      var x := s[|s| - 1];
      DedupFacts(prefix);
      var d := Dedup(prefix);
      assert s == prefix + [x];
      forall y | y in prefix ensures y in s && Position(s, y) == Position(prefix, y) {
        PositionAppend(prefix, x, y);
      }
      if x !in d {
        assert x !in prefix;
        assert s[..|s| - 1] == prefix;
        PositionUnique(s, x, |s| - 1);
        var e := Dedup(s);
        assert e == d + [x];
        forall i, j | 0 <= i < j < |e| ensures Position(s, e[i]) < Position(s, e[j]) {
          assert e[i] == d[i] && e[i] in prefix;
          if j < |d| {
            assert e[j] == d[j] && e[j] in prefix;
          }
        }
      }
    }
  }

  /** Adding only keys already held changes nothing. */
  lemma {:induction false} DedupAbsorbs(s: seq<string>, t: seq<string>)
    requires forall k :: 0 <= k < |t| ==> t[k] in s
    ensures Dedup(s + t) == Dedup(s)
    decreases |t|
  {
    if t == [] {
      assert s + t == s;
    } else {
      var st := s + t;
      var x := t[|t| - 1];
      assert st[..|st| - 1] == s + t[..|t| - 1];
      assert st[|st| - 1] == x;
      DedupAbsorbs(s, t[..|t| - 1]);
      assert x in Dedup(s) by { DedupFacts(s); }
    }
  }

  /** Keys that are already distinct come out as they went in. */
  lemma {:induction false} DedupDistinct(s: seq<string>)
    requires Distinct(s)
    ensures Dedup(s) == s
    decreases |s|
  {
    if s != [] {
      var prefix := s[..|s| - 1];
      DedupDistinct(prefix);
      assert s[|s| - 1] !in prefix;
      assert s == prefix + [s[|s| - 1]];
    }
  }

  /** The column fields: the distinct keys of the object rows. */
  function ColumnKeys(rows: seq<JsonRow>): seq<string> {
    Dedup(AllKeys(rows))
  }

  /** The inner loop of `columnDefs`: add one row's keys to the `Set`. */
  method AddKeys(keys: seq<string>, ghost seen: seq<string>, ks: seq<string>) returns (r: seq<string>)
    requires keys == Dedup(seen)
    ensures r == Dedup(seen + ks)
  {
    r := keys;
    var j := 0;
    assert seen + ks[..0] == seen;
    while j < |ks|
      invariant 0 <= j <= |ks|
      invariant r == Dedup(seen + ks[..j])
    {
      var s := seen + ks[..j + 1];
      assert s[..|s| - 1] == seen + ks[..j];
      assert s[|s| - 1] == ks[j];
      r := Add(r, ks[j]);
      j := j + 1;
    }
    assert ks[..j] == ks;
  }

  lemma AllKeysStep(rows: seq<JsonRow>, i: nat)
    requires i < |rows|
    ensures AllKeys(rows[..i + 1]) == AllKeys(rows[..i]) + KeysOf(rows[i])
  {
    assert rows[..i + 1][..i] == rows[..i];
    assert rows[..i + 1][i] == rows[i];
  }

  /** The `columnDefs` loop. */
  method ColumnDefs(rows: seq<JsonRow>) returns (keys: seq<string>)
    ensures keys == ColumnKeys(rows)
  {
    keys := [];
    ghost var seen: seq<string> := [];
    var i := 0;
    while i < |rows|
      invariant 0 <= i <= |rows|
      invariant seen == AllKeys(rows[..i]) && keys == Dedup(seen)
    {
      AllKeysStep(rows, i);
      if rows[i].ObjectRow? {
        keys := AddKeys(keys, seen, rows[i].keys);
      } else {
        assert seen + [] == seen;
      }
      seen := seen + KeysOf(rows[i]);
      i := i + 1;
    }
    assert rows[..i] == rows;
  }

  /** A key is a column exactly when some object row has it. */
  lemma {:induction false} AllKeysMembers(rows: seq<JsonRow>)
    ensures forall k :: k in AllKeys(rows) <==> exists i :: 0 <= i < |rows| && rows[i].ObjectRow? && k in rows[i].keys
    decreases |rows|
  {
    if rows != [] {
      var prefix := rows[..|rows| - 1];
      AllKeysMembers(prefix);
      forall k ensures k in AllKeys(rows) <==> exists i :: 0 <= i < |rows| && rows[i].ObjectRow? && k in rows[i].keys {
        if k in AllKeys(prefix) {
          var i :| 0 <= i < |prefix| && prefix[i].ObjectRow? && k in prefix[i].keys;
          assert rows[i] == prefix[i];
        }
        if exists i :: 0 <= i < |rows| && rows[i].ObjectRow? && k in rows[i].keys {
          var i :| 0 <= i < |rows| && rows[i].ObjectRow? && k in rows[i].keys;
          if i < |prefix| { assert prefix[i] == rows[i]; }
        }
      }
    }
  }

  /** One column per distinct key of the object rows, no duplicates, in
      first-seen order; arrays and other values add nothing. */
  lemma ColumnsFacts(rows: seq<JsonRow>)
    ensures Distinct(ColumnKeys(rows))
    ensures forall k :: k in ColumnKeys(rows) <==> k in AllKeys(rows)
    ensures forall k :: k in ColumnKeys(rows) <==>
              exists i :: 0 <= i < |rows| && rows[i].ObjectRow? && k in rows[i].keys
    ensures forall i, j :: 0 <= i < j < |ColumnKeys(rows)| ==>
              Position(AllKeys(rows), ColumnKeys(rows)[i]) < Position(AllKeys(rows), ColumnKeys(rows)[j])
  {
    DedupFacts(AllKeys(rows));
    AllKeysMembers(rows);
  }

  /** Rows that are not objects are ignored. */
  lemma NonObjectRowIgnored(rows: seq<JsonRow>, row: JsonRow)
    requires !row.ObjectRow?
    ensures ColumnKeys(rows + [row]) == ColumnKeys(rows)
  {
    var s := rows + [row];
    assert s[..|s| - 1] == rows;
    assert AllKeys(s) == AllKeys(rows) + [];
    assert AllKeys(rows) + [] == AllKeys(rows);
  }

  /** When every row is an object with the same distinct keys, the columns
      are those keys. */
  lemma {:induction false} SameKeysEveryRow(rows: seq<JsonRow>, fields: seq<string>)
    requires rows != [] && Distinct(fields)
    requires forall i :: 0 <= i < |rows| ==> rows[i] == ObjectRow(fields)
    ensures ColumnKeys(rows) == fields
    decreases |rows|
  {
    var prefix := rows[..|rows| - 1];
    if prefix == [] {
      assert AllKeys(rows) == [] + fields;
      assert [] + fields == fields;
      DedupDistinct(fields);
    } else {
      SameKeysEveryRow(prefix, fields);
      AllKeysMembers(prefix);
      forall k | 0 <= k < |fields| ensures fields[k] in AllKeys(prefix) {
        assert prefix[0] == ObjectRow(fields);
      }
      DedupAbsorbs(AllKeys(prefix), fields);
    }
  }

  // ---------------------------------------------------------------------
  // The answer

  /** The fields of a Person as the route sends them, in the page's type order. */
  const PersonFields: seq<string> := ["id", "name", "enName", "age", "dob", "sex", "source", "createdAt"]

  function PersonRows(n: nat): (rows: seq<JsonRow>)
    ensures |rows| == n && forall i :: 0 <= i < n ==> rows[i] == ObjectRow(PersonFields)
  {
    if n == 0 then [] else PersonRows(n - 1) + [ObjectRow(PersonFields)]
  }

  /** The parts of the JSON answer the page reads: `data` and
      `pagination.total`, each possibly absent. */
  datatype Json = Json(data: Option<seq<JsonRow>>, paginationTotal: Option<nat>)

  /** The rows route's answer as JSON: a bare array has neither field. */
  function JsonOf(r: RowsRoute.Response): Json {
    match r
    case PersonPage(data, pagination) => Json(Some(PersonRows(|data|)), Some(pagination.total))
    case Bare(_) => Json(None, None)
  }

  /** `data.data || []`. */
  function RowsOf(j: Json): seq<JsonRow> {
    if j.data.Some? then j.data.value else []
  }

  /** `data.pagination?.total || rows.length`: a total of 0 counts as absent. */
  function TotalRowsOf(j: Json): (n: nat)
    ensures n == 0 <==> (j.paginationTotal.None? || j.paginationTotal.value == 0) && RowsOf(j) == []
  {
    if j.paginationTotal.Some? && j.paginationTotal.value != 0 then j.paginationTotal.value
    else |RowsOf(j)|
  }

  /** A bare-array answer (the Row fallback, or an error) loads no rows and
      shows a total of zero. */
  lemma BareAnswerHasNoRows(items: seq<Store.Record>)
    ensures RowsOf(JsonOf(RowsRoute.Bare(items))) == []
    ensures TotalRowsOf(JsonOf(RowsRoute.Bare(items))) == 0
  {
  }

  /** A page of Persons shows the count of every match, and one column per
      Person field. */
  lemma PersonAnswerTotals(page: Num, limit: Num, w: RowsRoute.Where, t: Tables)
    requires RowsRoute.Respond(page, limit, w, t, false).PersonPage?
    ensures RowsRoute.WhereValid(w)
    ensures TotalRowsOf(JsonOf(RowsRoute.Respond(page, limit, w, t, false))) ==
              |RowsRoute.MatchingPersons(t.persons, w)|
    ensures ColumnKeys(RowsOf(JsonOf(RowsRoute.Respond(page, limit, w, t, false)))) == PersonFields
  {
    var total := RowsRoute.PersonPageTotal(page, limit, w, t);
    var r := RowsRoute.Respond(page, limit, w, t, false);
    RowsRoute.PersonPageFacts(page, limit, w, t, false);
    assert |r.data| > 0;
    PersonFieldsDistinct();
    SameKeysEveryRow(PersonRows(|r.data|), PersonFields);
  }

  lemma PersonFieldsDistinct()
    ensures Distinct(PersonFields)
  {
    var s := PersonFields;
    assert s[0][0] == 'i' && s[1][0] == 'n' && s[2][0] == 'e' && s[3][0] == 'a';
    assert s[4][0] == 'd' && s[5][0] == 's' && s[6][0] == 's' && s[7][0] == 'c';
    assert s[1] != s[2] by { assert s[1][0] != s[2][0]; }
    assert s[5] != s[6] by { assert |s[5]| != |s[6]|; }
  }

  // ---------------------------------------------------------------------
  // The page's state

  class Grid {
    var rowData: seq<JsonRow>
    var totalRows: nat

    /** The initial state: nothing loaded. */
    constructor ()
      ensures rowData == [] && totalRows == 0
    {
      rowData := [];
      totalRows := 0;
    }

    /** The columns shown for the loaded rows. */
    function Columns(): seq<string>
      reads this
    {
      ColumnKeys(rowData)
    }

    /** `fetchData`'s result handling; `None` is a fetch that threw, which
        is only logged and leaves the grid as it was. */
    method Receive(answer: Option<Json>)
      modifies this
      ensures answer.None? ==> rowData == old(rowData) && totalRows == old(totalRows)
      ensures answer.Some? ==> rowData == RowsOf(answer.value) && totalRows == TotalRowsOf(answer.value)
    {
      if answer.Some? {
        var data := answer.value;
        var rows := if data.data.Some? then data.data.value else [];
        rowData := rows;
        totalRows := if data.paginationTotal.Some? && data.paginationTotal.value != 0
                     then data.paginationTotal.value else |rows|;
      }
    }
  }
}
