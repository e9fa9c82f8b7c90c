/** `GET /api/rows`: turns the query parameters into a Person filter, reads
    one page ordered by `createdAt` descending, and falls back to the generic
    `Row` table when that page is empty. Every store failure is answered with
    an empty JSON array. */
module RowsRoute {
  import opened Wrappers
  import opened Js
  import opened Url
  import opened Store

  // ---------------------------------------------------------------------
  // The `where` clause

  /** The shapes `where.age` can take. `Gte` and `Lte` exist in the code but
      are never built (see `NoGteOrLte`). */
  datatype AgeCond =
    | Range(gte: Num, lte: Num)
    | Gt(gt: Num)
    | Lt(lt: Num)
    | Gte(min: Num)
    | Lte(max: Num)
    | Equals(value: int)

  /** `where`: each field absent or set. `nameOr` stands for the OR of the two
      case-insensitive `contains` conditions on `name` and `enName`. */
  datatype Where = Where(age: Option<AgeCond>, sex: Option<string>, nameOr: Option<string>)

  const EmptyWhere: Where := Where(None, None, None)

  /** A query parameter as JavaScript's truthiness sees it: present and non-empty. */
  function Filled(v: Option<string>): Option<string> {
    if v.Some? && v.value != "" then v else None
  }

  /** The age filter, checked in the code's order: a `-` anywhere makes a range
      (its first two `-`-separated parts read by `Number`); then `>`, `<`,
      `>=`, `<=` each strip their first occurrence and `parseInt` the rest;
      otherwise the whole value is `parseInt`ed and used only when it is a number. */
  function ParseAge(f: string): (r: Option<AgeCond>)
    ensures (r.Some? && r.value.Range?) <==> '-' in f
    ensures r.None? ==> '-' !in f && ParseInt(f).NaN?
    ensures r.Some? && r.value.Equals? ==> ParseInt(f) == Int(r.value.value)
  {
    IncludesChar(f, '-');
    if Includes(f, "-") then
      var parts := Split(f, '-');
      Some(Range(Number(parts[0]), Number(parts[1])))
    else if Includes(f, ">") then Some(Gt(ParseInt(ReplaceFirst(f, ">", ""))))
    else if Includes(f, "<") then Some(Lt(ParseInt(ReplaceFirst(f, "<", ""))))
    else if Includes(f, ">=") then Some(Gte(ParseInt(ReplaceFirst(f, ">=", ""))))
    else if Includes(f, "<=") then Some(Lte(ParseInt(ReplaceFirst(f, "<=", ""))))
    else match ParseInt(f)
      case NaN => None
      case Int(v) => Some(Equals(v))
  }

  /** The `where` clause the route builds from a query. */
  function WhereOf(q: Query): (w: Where)
    ensures w.age.Some? ==> Get(q, "age").Some? && Get(q, "age").value != ""
    ensures w.sex.Some? <==> Get(q, "sex").Some? && Get(q, "sex").value != ""
    ensures w.sex.Some? ==> w.sex == Get(q, "sex")
    ensures w.nameOr.Some? <==> Get(q, "name").Some? && Get(q, "name").value != ""
    ensures w.nameOr.Some? ==> w.nameOr == Get(q, "name")
  {
    var age := Filled(Get(q, "age"));
    var sex := Filled(Get(q, "sex"));
    var name := Filled(Get(q, "name"));
    Where(if age.Some? then ParseAge(age.value) else None, sex, name)
  }

  /** The route's if-chain of field assignments on an initially empty `where`. */
  method BuildWhere(q: Query) returns (w: Where)
    ensures w == WhereOf(q)
  {
    w := EmptyWhere;
    var ageFilter := Get(q, "age");
    var sexFilter := Get(q, "sex");
    var nameFilter := Get(q, "name");
    if ageFilter.Some? && ageFilter.value != "" {
      var f := ageFilter.value;
      if Includes(f, "-") {
        IncludesChar(f, '-');
        var parts := Split(f, '-');
        w := w.(age := Some(Range(Number(parts[0]), Number(parts[1]))));
      } else if Includes(f, ">") {
        w := w.(age := Some(Gt(ParseInt(ReplaceFirst(f, ">", "")))));
      } else if Includes(f, "<") {
        w := w.(age := Some(Lt(ParseInt(ReplaceFirst(f, "<", "")))));
      } else if Includes(f, ">=") {
        w := w.(age := Some(Gte(ParseInt(ReplaceFirst(f, ">=", "")))));
      } else if Includes(f, "<=") {
        w := w.(age := Some(Lte(ParseInt(ReplaceFirst(f, "<=", "")))));
      } else {
        var val := ParseInt(f);
        if val.Int? {
          w := w.(age := Some(Equals(val.v)));
        }
      }
    }
    if sexFilter.Some? && sexFilter.value != "" {
      w := w.(sex := sexFilter);
    }
    if nameFilter.Some? && nameFilter.value != "" {
      w := w.(nameOr := nameFilter);
    }
  }

  // ---------------------------------------------------------------------
  // Matching a stored Person against `where`

  /** The store rejects a filter number that is NaN (it is not an integer),
      so such a `where` makes the query throw. */
  predicate AgeCondValid(c: AgeCond) {
    match c
    case Range(a, b) => a.Int? && b.Int?
    case Gt(n) => n.Int?
    case Lt(n) => n.Int?
    case Gte(n) => n.Int?
    case Lte(n) => n.Int?
    case Equals(_) => true
  }

  predicate WhereValid(w: Where) {
    w.age.Some? ==> AgeCondValid(w.age.value)
  }

  /** SQL comparison of a nullable `age` column: NULL satisfies no condition. */
  predicate AgeMatches(age: Option<int>, c: AgeCond)
    requires AgeCondValid(c)
  {
    age.Some? &&
    match c
    case Range(a, b) => a.v <= age.value <= b.v
    case Gt(n) => age.value > n.v
    case Lt(n) => age.value < n.v
    case Gte(n) => age.value >= n.v
    case Lte(n) => age.value <= n.v
    case Equals(v) => age.value == v
  }

  /** Case-insensitive `contains` (case folding restricted to ASCII). */
  predicate ContainsInsensitive(text: string, needle: string) {
    Includes(Lower(text), Lower(needle))
  }

  predicate Matches(w: Where, p: Person)
    requires WhereValid(w)
  {
    && (w.age.Some? ==> AgeMatches(p.age, w.age.value))
    && (w.sex.Some? ==> p.sex == w.sex)
    && (w.nameOr.Some? ==>
          ContainsInsensitive(p.name, w.nameOr.value) || ContainsInsensitive(p.enName, w.nameOr.value))
  }

  function MatchingPersons(persons: seq<Person>, w: Where): seq<Person>
    requires WhereValid(w)
  {
    Filter(persons, (p: Person) => Matches(w, p))
  }

  // ---------------------------------------------------------------------
  // The handler

  datatype Pagination = Pagination(page: int, limit: int, total: nat, totalPages: int)

  /** The JSON body: a page of Persons with its pagination, or a bare array
      (the generic rows' `data` blobs, or `[]` after an error). */
  datatype Response =
    | PersonPage(data: seq<Person>, pagination: Pagination)
    | Bare(items: seq<Record>)

  function OrDefault(v: Option<string>, default: string): string {
    if v.Some? && v.value != "" then v.value else default
  }

  /** `parseInt(searchParams.get('page') || '1')`. */
  function PageOf(q: Query): Num { ParseInt(OrDefault(Get(q, "page"), "1")) }

  /** `parseInt(searchParams.get('limit') || '1000')`. */
  function LimitOf(q: Query): Num { ParseInt(OrDefault(Get(q, "limit"), "1000")) }

  /** The store accepts `take`/`skip` only as integers, and `skip` must not
      be negative; a negative `take` is not modelled and counted as invalid. */
  predicate PagingValid(page: Num, limit: Num) {
    page.Int? && limit.Int? && limit.v >= 0 && (page.v - 1) * limit.v >= 0
  }

  /** `Math.ceil(total / limit)` for a positive limit. */
  function CeilDiv(total: nat, limit: nat): (r: nat)
    requires limit > 0
    ensures r * limit >= total
    ensures r > 0 ==> (r - 1) * limit < total
  {
    (total + limit - 1) / limit
  }

  function Datas(rows: seq<StoredRow>): (r: seq<Record>)
    ensures |r| == |rows| && forall k :: 0 <= k < |rows| ==> r[k] == rows[k].data
  {
    if rows == [] then [] else [rows[0].data] + Datas(rows[1..])
  }

  /** The `Person.findMany` call: filter, order, skip, take. */
  function PersonPageOf(persons: seq<Person>, w: Where, offset: nat, limit: nat): (r: seq<Person>)
    requires WhereValid(w)
    ensures |r| <= limit
    ensures r == [] <==> offset >= |MatchingPersons(persons, w)| || limit == 0
  {
    Slice(SortDesc(MatchingPersons(persons, w), PersonCreatedAt), offset, limit)
  }

  /** The `Row.findMany` call: no filter, only order, skip, take. */
  function RowFallbackOf(rows: seq<StoredRow>, offset: nat, limit: nat): seq<Record> {
    Datas(Slice(SortDesc(rows, RowCreatedAt), offset, limit))
  }

  /** The whole handler. `storeFails` says that some store call throws. */
  function Handle(q: Query, t: Tables, storeFails: bool): (r: Response)
    ensures storeFails ==> r == Bare([])
    ensures r.PersonPage? ==>
              && PageOf(q) == Int(r.pagination.page) && LimitOf(q) == Int(r.pagination.limit)
              && 0 < |r.data| <= r.pagination.limit
  {
    Respond(PageOf(q), LimitOf(q), WhereOf(q), t, storeFails)
  }

  /** The handler once `page`, `limit` and `where` have been read. */
  function Respond(page: Num, limit: Num, w: Where, t: Tables, storeFails: bool): (r: Response)
    ensures storeFails || !PagingValid(page, limit) || !WhereValid(w) ==> r == Bare([])
    ensures r.PersonPage? ==>
              && !storeFails && PagingValid(page, limit) && WhereValid(w)
              && page == Int(r.pagination.page) && limit == Int(r.pagination.limit)
              && 0 < |r.data| <= r.pagination.limit
  {
    if storeFails || !PagingValid(page, limit) || !WhereValid(w) then Bare([])
    else
      var offset: nat := (page.v - 1) * limit.v;
      var persons := PersonPageOf(t.persons, w, offset, limit.v);
      if |persons| > 0 then
        var total := |MatchingPersons(t.persons, w)|;
        PersonPage(persons, Pagination(page.v, limit.v, total, CeilDiv(total, limit.v)))
      else Bare(RowFallbackOf(t.rows, offset, limit.v))
  }

  // ---------------------------------------------------------------------
  // Properties of the age parser

  lemma SplitOfDash()
    ensures Split("-5", '-') == ["", "5"]
  {
    assert FirstIndex("-5", '-') == 0;
    assert "-5"[1..] == "5";
  }

  /** Any value with a `-` is a range, checked before every operator; `"-5"`
      splits into `""` and `"5"`, so it means 0 to 5. */
  lemma DashMeansRange(f: string)
    requires '-' in f
    ensures ParseAge(f).Some? && ParseAge(f).value.Range?
    ensures ParseAge(f).value == Range(Number(Split(f, '-')[0]), Number(Split(f, '-')[1]))
    ensures f == "-5" ==> ParseAge(f) == Some(Range(Int(0), Int(5)))
  {
    IncludesChar(f, '-');
    if f == "-5" {
      SplitOfDash();
      NumberEmpty();
      NumberNatToString(5);
      assert NatToString(5) == "5";
    }
  }

  /** The `>=` and `<=` branches are unreachable: a value containing `>=`
      contains `>` and is taken by the `>` branch (likewise `<=` and `<`). */
  lemma NoGteOrLte(f: string)
    ensures ParseAge(f).Some? ==> !ParseAge(f).value.Gte? && !ParseAge(f).value.Lte?
  {
    if Includes(f, ">=") {
      IncludesFirstChar(f, ">=");
      IncludesChar(f, '>');
    }
    if Includes(f, "<=") {
      IncludesFirstChar(f, "<=");
      IncludesChar(f, '<');
    }
  }

  /** `">=N"` (no `-`) becomes a `gt` comparison with `parseInt("=N")`, which is NaN. */
  lemma GteTextIsGtNaN(digits: string)
    requires '-' !in digits
    ensures ParseAge(">=" + digits) == Some(Gt(NaN))
  {
    var f := ">=" + digits;
    IncludesChar(f, '-');
    assert '-' !in f by { assert forall k :: 2 <= k < |f| ==> f[k] == digits[k - 2]; }
    IncludesChar(f, '>');
    assert f[0] == '>';
    assert IndexOf(f, ">") == 0 by { assert StartsWith(f[0..], ">"); }
    assert ReplaceFirst(f, ">", "") == "=" + digits;
    ParseIntNaN("=" + digits);
  }

  /** `"<=N"` likewise becomes `lt` NaN. */
  lemma LteTextIsLtNaN(digits: string)
    requires '-' !in digits && '>' !in digits
    ensures ParseAge("<=" + digits) == Some(Lt(NaN))
  {
    var f := "<=" + digits;
    assert '-' !in f && '>' !in f by { assert forall k :: 2 <= k < |f| ==> f[k] == digits[k - 2]; }
    IncludesChar(f, '-');
    IncludesChar(f, '>');
    IncludesChar(f, '<');
    assert IndexOf(f, "<") == 0 by { assert StartsWith(f[0..], "<"); }
    assert ReplaceFirst(f, "<", "") == "=" + digits;
    ParseIntNaN("=" + digits);
  }

  /** A bare age (no `-`, `>` or `<`) is an exact match when it parses as an
      integer, and sets no age condition when it does not. */
  lemma BareAge(f: string)
    requires '-' !in f && '>' !in f && '<' !in f
    ensures ParseInt(f).Int? ==> ParseAge(f) == Some(Equals(ParseInt(f).v))
    ensures ParseInt(f).NaN? ==> ParseAge(f) == None
  {
    IncludesChar(f, '-');
    IncludesChar(f, '>');
    IncludesChar(f, '<');
    if Includes(f, ">=") { IncludesFirstChar(f, ">="); }
    if Includes(f, "<=") { IncludesFirstChar(f, "<="); }
  }

  // ---------------------------------------------------------------------
  // Properties of the handler

  /** The rows of `PersonPageOf` are matches, newest first, read from
      position `offset` of the ordered matches. */
  lemma PersonPageOfFacts(persons: seq<Person>, w: Where, offset: nat, limit: nat)
    requires WhereValid(w)
    ensures var d := PersonPageOf(persons, w, offset, limit);
            && |d| <= limit
            && SortedDesc(d, PersonCreatedAt)
            && (forall k :: 0 <= k < |d| ==> Matches(w, d[k]) && d[k] in persons)
            && (forall k :: 0 <= k < |d| ==>
                  d[k] == SortDesc(MatchingPersons(persons, w), PersonCreatedAt)[offset + k])
  {
    var m := MatchingPersons(persons, w);
    var sorted := SortDesc(m, PersonCreatedAt);
    var d := Slice(sorted, offset, limit);
    SortDescSorted(m, PersonCreatedAt);
    SliceSorted(sorted, offset, limit, PersonCreatedAt);
    forall k | 0 <= k < |d| ensures Matches(w, d[k]) && d[k] in persons {
      assert d[k] == sorted[offset + k];
      assert d[k] in multiset(sorted);
      assert d[k] in multiset(m);
      assert d[k] in m;
    }
  }

  /** A non-empty Person page: at most `limit` rows, newest first, each
      matching the filter, taken from position `(page-1)*limit` of the ordered
      matches; `total` counts all matches under the same `where` and
      `totalPages` is its ceiling division by `limit`. */
  lemma PersonPageFacts(page: Num, limit: Num, w: Where, t: Tables, storeFails: bool)
    requires Respond(page, limit, w, t, storeFails).PersonPage?
    ensures !storeFails && PagingValid(page, limit) && WhereValid(w)
    ensures var r := Respond(page, limit, w, t, storeFails);
            && page == Int(r.pagination.page) && limit == Int(r.pagination.limit)
            && r.data == PersonPageOf(t.persons, w, (page.v - 1) * limit.v, limit.v)
            && 0 < |r.data| <= r.pagination.limit
            && SortedDesc(r.data, PersonCreatedAt)
            && (forall k :: 0 <= k < |r.data| ==> Matches(w, r.data[k]) && r.data[k] in t.persons)
            && r.pagination.total == |MatchingPersons(t.persons, w)|
            && r.pagination.totalPages * r.pagination.limit >= r.pagination.total
            && (r.pagination.totalPages - 1) * r.pagination.limit < r.pagination.total
  {
    PersonPageOfFacts(t.persons, w, (page.v - 1) * limit.v, limit.v);
  }

  /** A page of Persons comes with a positive total, the count of all
      matches, and `totalPages` is its ceiling division by a positive limit. */
  lemma PersonPageTotal(page: Num, limit: Num, w: Where, t: Tables) returns (total: nat)
    requires Respond(page, limit, w, t, false).PersonPage?
    ensures limit.Int? && limit.v > 0 && WhereValid(w)
    ensures total == |MatchingPersons(t.persons, w)| > 0
    ensures Respond(page, limit, w, t, false).pagination ==
              Pagination(page.v, limit.v, total, CeilDiv(total, limit.v))
  {
    assert PagingValid(page, limit) && WhereValid(w);
    var m := MatchingPersons(t.persons, w);
    var offset: nat := (page.v - 1) * limit.v;
    var sorted := SortDesc(m, PersonCreatedAt);
    var persons := Slice(sorted, offset, limit.v);
    assert persons == PersonPageOf(t.persons, w, offset, limit.v);
    assert |persons| > 0;
    assert |sorted| == |m| > 0;
    total := |m|;
  }

  /** When the requested Person page is empty (nothing matches, or the page
      lies past the end), the answer is the bare array of generic rows for the
      same page and limit, whatever the filter says. */
  lemma EmptyPageFallsBack(page: Num, limit: Num, w: Where, t: Tables)
    requires PagingValid(page, limit) && WhereValid(w)
    requires PersonPageOf(t.persons, w, (page.v - 1) * limit.v, limit.v) == []
    ensures Respond(page, limit, w, t, false) ==
            Bare(RowFallbackOf(t.rows, (page.v - 1) * limit.v, limit.v))
  {
  }

  /** The fallback ignores every filter: two `where` clauses whose Person
      pages are both empty get the same answer for the same page and limit. */
  lemma FallbackIgnoresFilters(page: Num, limit: Num, w1: Where, w2: Where, t: Tables)
    requires PagingValid(page, limit) && WhereValid(w1) && WhereValid(w2)
    requires PersonPageOf(t.persons, w1, (page.v - 1) * limit.v, limit.v) == []
    requires PersonPageOf(t.persons, w2, (page.v - 1) * limit.v, limit.v) == []
    ensures Respond(page, limit, w1, t, false) == Respond(page, limit, w2, t, false)
  {
    EmptyPageFallsBack(page, limit, w1, t);
    EmptyPageFallsBack(page, limit, w2, t);
  }

  /** Any thrown error (a failing store call, a NaN or negative skip/take, a
      NaN filter number) yields an empty JSON array. */
  lemma ErrorsYieldEmptyArray(q: Query, t: Tables, storeFails: bool)
    requires storeFails || !PagingValid(PageOf(q), LimitOf(q)) || !WhereValid(WhereOf(q))
    ensures Handle(q, t, storeFails) == Bare([])
  {
  }

  /** A query whose age is `">=N"` (as the grid client sends for
      "greater than or equal") yields `gt: NaN`, so the route answers `[]`. */
  lemma GteQueryYieldsEmpty(q: Query, t: Tables, digits: string)
    requires Get(q, "age") == Some(">=" + digits) && '-' !in digits
    ensures Handle(q, t, false) == Bare([])
  {
    GteTextIsGtNaN(digits);
    assert !WhereValid(WhereOf(q));
  }

  /** A query whose age is `"<=N"` likewise yields `lt: NaN` and `[]`. */
  lemma LteQueryYieldsEmpty(q: Query, t: Tables, digits: string)
    requires Get(q, "age") == Some("<=" + digits) && '-' !in digits && '>' !in digits
    ensures Handle(q, t, false) == Bare([])
  {
    LteTextIsLtNaN(digits);
    assert !WhereValid(WhereOf(q));
  }

  /** No decimal text of a natural number holds a sign or a comparison. */
  lemma NatTextPlain(n: nat)
    ensures '-' !in NatToString(n) && '>' !in NatToString(n) && '<' !in NatToString(n)
    ensures '=' !in NatToString(n)
  {
    var s := NatToString(n);
    assert forall i :: 0 <= i < |s| ==> IsDigit(s[i]);
  }

  /** A query whose age is `">N"` is a strict lower bound `N`. */
  lemma GtQuery(q: Query, n: nat)
    requires Get(q, "age") == Some(">" + NatToString(n))
    ensures WhereOf(q).age == Some(Gt(Int(n)))
  {
    GtText(n);
  }

  /** `">N"` is taken by the `>` branch and reads as `N`. */
  lemma GtText(n: nat)
    ensures ParseAge(">" + NatToString(n)) == Some(Gt(Int(n)))
  {
    var s := NatToString(n);
    var t := ">" + s;
    NatTextPlain(n);
    assert '-' !in t by { assert forall i :: 1 <= i < |t| ==> t[i] == s[i - 1]; }
    IncludesChar(t, '-');
    IncludesChar(t, '>');
    assert IndexOf(t, ">") == 0 by { assert StartsWith(t[0..], ">"); }
    assert ReplaceFirst(t, ">", "") == s;
    ParseIntToString(n);
  }

  /** A query whose age is `"<N"` is a strict upper bound `N`. */
  lemma LtQuery(q: Query, n: nat)
    requires Get(q, "age") == Some("<" + NatToString(n))
    ensures WhereOf(q).age == Some(Lt(Int(n)))
  {
    LtText(n);
  }

  /** `"<N"` is taken by the `<` branch and reads as `N`. */
  lemma LtText(n: nat)
    ensures ParseAge("<" + NatToString(n)) == Some(Lt(Int(n)))
  {
    var s := NatToString(n);
    var t := "<" + s;
    NatTextPlain(n);
    assert '-' !in t && '>' !in t by { assert forall i :: 1 <= i < |t| ==> t[i] == s[i - 1]; }
    IncludesChar(t, '-');
    IncludesChar(t, '>');
    IncludesChar(t, '<');
    assert IndexOf(t, "<") == 0 by { assert StartsWith(t[0..], "<"); }
    assert ReplaceFirst(t, "<", "") == s;
    ParseIntToString(n);
  }

  /** A query whose age is `"=N"` sets no age condition: `parseInt("=N")` is NaN. */
  lemma EqualsSignQuery(q: Query, n: nat)
    requires Get(q, "age") == Some("=" + NatToString(n))
    ensures WhereOf(q).age.None?
  {
    EqualsSignText(n);
  }

  /** `"=N"` is taken by no operator branch and `parseInt` reads it as NaN. */
  lemma EqualsSignText(n: nat)
    ensures ParseAge("=" + NatToString(n)).None?
  {
    var s := NatToString(n);
    var t := "=" + s;
    NatTextPlain(n);
    assert '-' !in t && '>' !in t && '<' !in t by {
      assert forall i :: 1 <= i < |t| ==> t[i] == s[i - 1];
    }
    BareAge(t);
    ParseIntNaN(t);
  }

  /** A query whose age is the bare number `N` is an exact match. */
  lemma BareNumberQuery(q: Query, n: nat)
    requires Get(q, "age") == Some(NatToString(n))
    ensures WhereOf(q).age == Some(Equals(n))
  {
    NatTextPlain(n);
    BareAge(NatToString(n));
    ParseIntToString(n);
  }

  /** The sex value is used verbatim: a value other than `m` and `f` is not
      ignored but matches no Person imported by the CSV route (whose `sex` is
      `m`, `f` or null), so the answer falls back to generic rows. */
  lemma OtherSexMatchesNoImportedPerson(page: Num, limit: Num, w: Where, t: Tables)
    requires PagingValid(page, limit) && WhereValid(w)
    requires w.sex.Some? && w.sex.value != "m" && w.sex.value != "f"
    requires forall k :: 0 <= k < |t.persons| ==>
               t.persons[k].sex in {None, Some("m"), Some("f")}
    ensures Respond(page, limit, w, t, false) ==
            Bare(RowFallbackOf(t.rows, (page.v - 1) * limit.v, limit.v))
  {
    OtherSexMatchesNone(w, t.persons);
    var offset: nat := (page.v - 1) * limit.v;
    assert SortDesc(MatchingPersons(t.persons, w), PersonCreatedAt) == [];
    assert |PersonPageOf(t.persons, w, offset, limit.v)| == 0;
  }

  /** Any non-empty `sex` value becomes the sex condition as it is, even one
      no Person can have; an empty one sets none. */
  lemma SexCopiedVerbatim(q: Query, s: string)
    requires Get(q, "sex") == Some(s)
    ensures s != "" ==> WhereOf(q).sex == Some(s)
    ensures s == "" ==> WhereOf(q).sex.None?
  {
  }

  lemma OtherSexMatchesNone(w: Where, persons: seq<Person>)
    requires WhereValid(w)
    requires w.sex.Some? && w.sex.value != "m" && w.sex.value != "f"
    requires forall k :: 0 <= k < |persons| ==> persons[k].sex in {None, Some("m"), Some("f")}
    ensures MatchingPersons(persons, w) == []
  {
    forall k | 0 <= k < |persons| ensures !Matches(w, persons[k]) { }
    FilterNone(persons, (p: Person) => Matches(w, p));
  }

  /** The name filter compares case-insensitively: two name values that
      lower-case alike select the same Persons. */
  lemma NameFilterCaseInsensitive(w: Where, n1: string, n2: string, p: Person)
    requires WhereValid(w) && Lower(n1) == Lower(n2)
    ensures Matches(w.(nameOr := Some(n1)), p) == Matches(w.(nameOr := Some(n2)), p)
  {
  }

  /** A name filter keeps exactly the Persons whose `name` or `enName`
      contains it, ignoring ASCII case. */
  lemma NameFilterOr(q: Query, p: Person)
    requires Filled(Get(q, "name")).Some? && WhereValid(WhereOf(q))
    requires Filled(Get(q, "age")).None? && Filled(Get(q, "sex")).None?
    ensures Matches(WhereOf(q), p) <==>
              ContainsInsensitive(p.name, Get(q, "name").value) ||
              ContainsInsensitive(p.enName, Get(q, "name").value)
  {
  }
}
