/** The English listing page: the query it sends to the rows route, the
    page count and the pager, and the picture, category and date of death
    it derives for each Person from a 32-bit running hash of the id. */
module EnglishListing {
  import opened Wrappers
  import opened Js
  import opened Url
  import opened Store
  import RowsRoute

  // ---------------------------------------------------------------------
  // The running hash

  /** `hash = (hash * k + id.charCodeAt(i)) | 0` folded over the code units
      from the left, starting at 0. */
  function Hash(units: seq<int>, k: int): (h: int)
    ensures -TWO_31 <= h < TWO_31
    decreases |units|
  {
    if units == [] then 0
    else ToInt32(Hash(units[..|units| - 1], k) * k + units[|units| - 1])
  }

  /** The hash of an id, over the UTF-16 code units that `charCodeAt` reads. */
  function IdHash(id: string, k: int): (h: int)
    ensures -TWO_31 <= h < TWO_31
  {
    Hash(Utf16(id), k)
  }

  /** The same fold in exact arithmetic, with no wrap-around. */
  function Polynomial(units: seq<int>, k: int): int
    decreases |units|
  {
    if units == [] then 0
    else Polynomial(units[..|units| - 1], k) * k + units[|units| - 1]
  }

  /** The loop each of the four helpers runs. After every step the hash is
      in the signed 32-bit range. */
  method RunningHash(id: string, k: int) returns (hash: int)
    ensures hash == IdHash(id, k)
    ensures -TWO_31 <= hash < TWO_31
  {
    var units := Utf16(id);
    hash := 0;
    var i := 0;
    while i < |units|
      invariant 0 <= i <= |units|
      invariant hash == Hash(units[..i], k)
      invariant -TWO_31 <= hash < TWO_31
    {
      assert units[..i + 1][..i] == units[..i];
      hash := ToInt32(hash * k + units[i]);
      i := i + 1;
    }
    assert units[..i] == units;
  }

  /** Two values congruent modulo 2^32 have the same ToInt32. */
  lemma ToInt32Congruent(x: int, j: int)
    ensures ToInt32(x + TWO_32 * j) == ToInt32(x)
  {
    assert (x + TWO_32 * j) % TWO_32 == x % TWO_32;
  }

  /** One step of the fold respects congruence modulo 2^32. */
  lemma StepCongruent(h: int, e: int, k: int, u: int)
    requires h == ToInt32(e)
    ensures ToInt32(h * k + u) == ToInt32(e * k + u)
  {
    var j := (e - h) / TWO_32;
    assert e == h + TWO_32 * j;
    assert e * k + u == (h * k + u) + TWO_32 * (j * k);
    ToInt32Congruent(h * k + u, j * k);
  }

  /** Wrapping after every step is the same as wrapping once at the end:
      the hash is the polynomial `sum units[i] * k^(n-1-i)` taken into the
      signed 32-bit range. */
  lemma {:induction false} HashIsWrappedPolynomial(units: seq<int>, k: int)
    ensures Hash(units, k) == ToInt32(Polynomial(units, k))
    decreases |units|
  {
    if units != [] {
      var prefix := units[..|units| - 1];
      HashIsWrappedPolynomial(prefix, k);
      StepCongruent(Hash(prefix, k), Polynomial(prefix, k), k, units[|units| - 1]);
    }
  }

  /** JavaScript computes `hash * k + unit` in double precision; for the
      three multipliers used the exact value stays below 2^53, so the double
      holds it exactly and ToInt32 of the exact integer is what `| 0` sees. */
  lemma StepExactInDoubles(h: int, k: int, u: int)
    requires -TWO_31 <= h < TWO_31 && (k == 31 || k == 33 || k == 37) && IsCodeUnit(u)
    ensures -0x20_0000_0000_0000 < h * k + u < 0x20_0000_0000_0000
  {
    if k == 31 {
      assert h * k == h * 31;
    } else if k == 33 {
      assert h * k == h * 33;
    } else {
      assert h * k == h * 37;
    }
  }

  /** An id of one character below U+10000 hashes to its code. */
  lemma SingleCharHash(c: char, k: int)
    requires (c as int) < 0x1_0000
    ensures IdHash([c], k) == c as int
  {
    assert Utf16([c]) == [c as int] by {
      assert [c][1..] == [];
    }
    assert Hash([c as int], k) == ToInt32(c as int) by {
      assert [c as int][..0] == [];
    }
  }

  /** `Math.abs`. */
  function Abs(x: int): (r: nat)
    ensures r == x || r == -x
  {
    if x < 0 then -x else x
  }

  // ---------------------------------------------------------------------
  // What the hash selects

  /** `(hash & 1) === 0`: the lowest bit of the 32-bit two's-complement
      pattern `h mod 2^32` is clear. */
  predicate LowBitClear(h: int) {
    (h % TWO_32) % 2 == 0
  }

  /** The low bit of the pattern is clear exactly when the value is even,
      negative values included. */
  lemma LowBitClearIffEven(h: int)
    ensures LowBitClear(h) <==> h % 2 == 0
  {
    PatternParity(h);
  }

  lemma PatternParity(h: int)
    ensures (h % TWO_32) % 2 == h % 2
  {
    var q := h / TWO_32;
    assert h == TWO_32 * q + h % TWO_32;
  }

  /** `hasImageForId(id)`: a Person has an image exactly when the 31-hash
      of its id is even. */
  predicate HasImage(id: string): (b: bool)
    ensures b <==> IdHash(id, 31) % 2 == 0
  {
    LowBitClearIffEven(IdHash(id, 31));
    LowBitClear(IdHash(id, 31))
  }

  method HasImageForId(id: string) returns (b: bool)
    ensures b == HasImage(id)
  {
    var hash := RunningHash(id, 31);
    b := (hash % TWO_32) % 2 == 0;
  }

  const SeedImageNames: seq<string> := [
    "slice_final_1_1.png", "slice_final_1_2.png", "slice_final_1_3.png",
    "slice_final_2_1.png", "slice_final_2_2.png", "slice_final_2_3.png",
    "slice_final_3_1.png", "slice_final_3_2.png", "slice_final_3_3.png"
  ]

  /** `squareImageUrlForId(id)`: one of the nine seed images. */
  function SquareImageUrl(id: string): (url: string)
    ensures exists i :: 0 <= i < |SeedImageNames| && url == "/api/seed/" + SeedImageNames[i]
  {
    var idx := Abs(IdHash(id, 31)) % |SeedImageNames|;
    "/api/seed/" + SeedImageNames[idx]
  }

  method SquareImageUrlForId(id: string) returns (url: string)
    ensures url == SquareImageUrl(id)
  {
    var hash := RunningHash(id, 31);
    var idx := Abs(hash) % |SeedImageNames|;
    url := "/api/seed/" + SeedImageNames[idx];
  }

  const Categories: seq<string> := ["civilian", "medical staff", "journalist", "child"]

  /** `categoryForId(id)`: always one of the four categories. */
  function Category(id: string): (c: string)
    ensures c in Categories
  {
    Categories[Abs(IdHash(id, 37)) % |Categories|]
  }

  method CategoryForId(id: string) returns (c: string)
    ensures c == Category(id)
  {
    var hash := RunningHash(id, 37);
    c := Categories[Abs(hash) % |Categories|];
  }

  /** The integer part of `dodForId`: `Math.abs(hash) % 10000`, which is
      then divided by 10000 into a fraction of the time since 7 October 2023. */
  function DodNumerator(id: string): (n: nat)
    ensures n < 10000
    ensures 0.0 <= (n as real) / 10000.0 < 1.0
  {
    Abs(IdHash(id, 33)) % 10000
  }

  method DodNumeratorForId(id: string) returns (n: nat)
    ensures n == DodNumerator(id)
  {
    var hash := RunningHash(id, 33);
    n := Abs(hash) % 10000;
  }

  /** `galleryData`: the Persons with an image. */
  function GalleryData(data: seq<Person>): (g: seq<Person>)
    ensures forall p :: p in g <==> p in data && HasImage(p.id)
  {
    Filter(data, (p: Person) => HasImage(p.id))
  }

  /** The gallery keeps the listing's order: it is computed Person by
      Person and concatenated. */
  lemma GalleryKeepsOrder(a: seq<Person>, b: seq<Person>, p: Person)
    ensures GalleryData(a + b) == GalleryData(a) + GalleryData(b)
    ensures GalleryData([p]) == if HasImage(p.id) then [p] else []
  {
    FilterConcat(a, b, (p: Person) => HasImage(p.id));
    assert [p][1..] == [];
    assert Filter([p], (p: Person) => HasImage(p.id)) ==
           (if HasImage(p.id) then [p] else []) + Filter([], (p: Person) => HasImage(p.id));
  }

  // ---------------------------------------------------------------------
  // Dates

  /** `formatDateOnly(value)` for a value that is a string or null. A value
      without `T` goes through `new Date`, which depends on the local time
      zone; that branch is the parameter `viaDate`. */
  function FormatDateOnly(value: Option<string>, viaDate: string -> string): (r: string)
    ensures value.None? ==> r == ""
    ensures value.Some? && 'T' in value.value ==>
              StartsWith(value.value, r) && 'T' !in r && value.value[|r|] == 'T'
    ensures value.Some? && 'T' !in value.value ==> r == viaDate(value.value)
  {
    if value.None? then ""
    else if 'T' in value.value then Split(value.value, 'T')[0]
    else viaDate(value.value)
  }

  // ---------------------------------------------------------------------
  // The query

  /** The filter controls: the name box, the sex select (`all`, `m`, `f`),
      the age comparator select and the age number box. */
  datatype Filters = Filters(name: string, sex: string, ageCmp: string, ageVal: string)

  const NoFilters: Filters := Filters("", "all", "", "")

  predicate SexChoice(sex: string) { sex == "all" || sex == "m" || sex == "f" }

  predicate CmpChoice(cmp: string) {
    cmp == "" || cmp == ">" || cmp == ">=" || cmp == "=" || cmp == "<=" || cmp == "<"
  }

  /** The age text sent: the comparator followed by `parseInt(ageVal, 10)`. */
  function AgeText(f: Filters): string {
    f.ageCmp + NumToString(ParseInt(f.ageVal))
  }

  /** `params.set(name, value)` when `cond` holds. */
  function SetIf(cond: bool, q: Query, name: string, value: string): (r: Query)
    ensures Get(r, name) == if cond then Some(value) else Get(q, name)
  {
    if cond then Set(q, name, value) else q
  }

  lemma SetIfOther(cond: bool, q: Query, name: string, value: string, other: string)
    requires other != name
    ensures Get(SetIf(cond, q, name, value), other) == Get(q, other)
  {
    if cond { SetOther(q, name, value, other); }
  }

  /** The parameters `fetchData` sets, in order; the page and the limit are
      always among them. */
  function ListingQuery(page: int, limit: int, f: Filters): (q: Query)
    ensures Get(q, "page") == Some(IntToString(page))
    ensures Get(q, "limit") == Some(IntToString(limit))
  {
    DistinctNames();
    var q0 := Set(Set([], "page", IntToString(page)), "limit", IntToString(limit));
    var q1 := SetIf(Trim(f.name) != "", q0, "name", Trim(f.name));
    var q2 := SetIf(f.sex != "all", q1, "sex", f.sex);
    SetIf(f.ageCmp != "" && f.ageVal != "", q2, "age", AgeText(f))
  }

  /** The value the listing sends for each parameter name. */
  function Sent(page: int, limit: int, f: Filters, n: string): Option<string> {
    if n == "page" then Some(IntToString(page))
    else if n == "limit" then Some(IntToString(limit))
    else if n == "name" then (if Trim(f.name) != "" then Some(Trim(f.name)) else None)
    else if n == "sex" then (if f.sex != "all" then Some(f.sex) else None)
    else if n == "age" then (if f.ageCmp != "" && f.ageVal != "" then Some(AgeText(f)) else None)
    else None
  }

  lemma DistinctNames()
    ensures "page" != "limit" && "page" != "name" && "page" != "sex" && "page" != "age"
    ensures "limit" != "name" && "limit" != "sex" && "limit" != "age"
    ensures "name" != "sex" && "name" != "age" && "sex" != "age"
  {
    assert "page"[0] != "name"[0] && "page"[0] != "sex"[0] && "page"[0] != "age"[0];
    assert "limit"[0] != "name"[0] && "limit"[0] != "sex"[0] && "limit"[0] != "age"[0];
    assert "name"[0] != "sex"[0] && "name"[0] != "age"[0] && "sex"[0] != "age"[0];
  }

  /** `page` and `limit` are always sent; `name` is sent trimmed and only
      when not blank; `sex` is left out for `all`; `age` is sent only when
      both the comparator and the value are set; nothing else is sent. */
  lemma ListingQuerySends(page: int, limit: int, f: Filters, n: string)
    ensures Get(ListingQuery(page, limit, f), n) == Sent(page, limit, f, n)
  {
    var qp := Set([], "page", IntToString(page));
    var q0 := Set(qp, "limit", IntToString(limit));
    var q1 := SetIf(Trim(f.name) != "", q0, "name", Trim(f.name));
    var q2 := SetIf(f.sex != "all", q1, "sex", f.sex);
    var q := SetIf(f.ageCmp != "" && f.ageVal != "", q2, "age", AgeText(f));
    assert q == ListingQuery(page, limit, f);
    DistinctNames();
    if n != "age" {
      SetIfOther(f.ageCmp != "" && f.ageVal != "", q2, "age", AgeText(f), n);
      if n != "sex" {
        SetIfOther(f.sex != "all", q1, "sex", f.sex, n);
        if n != "name" {
          SetIfOther(Trim(f.name) != "", q0, "name", Trim(f.name), n);
          if n != "limit" {
            SetOther(qp, "limit", IntToString(limit), n);
            if n != "page" {
              SetOther([], "page", IntToString(page), n);
            }
          }
        }
      }
    }
  }

  /** The route reads back the page and the limit the listing sent. */
  lemma RouteReadsPaging(page: int, limit: int, f: Filters)
    ensures RowsRoute.PageOf(ListingQuery(page, limit, f)) == Int(page)
    ensures RowsRoute.LimitOf(ListingQuery(page, limit, f)) == Int(limit)
  {
    ListingQuerySends(page, limit, f, "page");
    ListingQuerySends(page, limit, f, "limit");
    DistinctNames();
    ParseIntToString(page);
    ParseIntToString(limit);
    assert IntToString(page) != "" && IntToString(limit) != "";
  }

  /** The route's name and sex conditions are the trimmed name box (when not
      blank) and the sex select (unless `all`). */
  lemma RouteReadsNameAndSex(page: int, limit: int, f: Filters)
    requires SexChoice(f.sex)
    ensures RowsRoute.WhereOf(ListingQuery(page, limit, f)).nameOr ==
              if Trim(f.name) != "" then Some(Trim(f.name)) else None
    ensures RowsRoute.WhereOf(ListingQuery(page, limit, f)).sex ==
              if f.sex != "all" then Some(f.sex) else None
  {
    ListingQuerySends(page, limit, f, "name");
    ListingQuerySends(page, limit, f, "sex");
    DistinctNames();
  }

  /** `parseInt` of a value made of digits, written back: the digits of its
      value, which hold no `-`. */
  lemma DigitsAgeText(f: Filters, d: string)
    requires f.ageVal == d && d != [] && AllDigits(d)
    ensures AgeText(f) == f.ageCmp + NatToString(DigitsValue(d))
    ensures '-' !in NatToString(DigitsValue(d))
  {
    ParseIntDigits(d);
    var s := NatToString(DigitsValue(d));
    assert forall i :: 0 <= i < |s| ==> s[i] != '-';
  }

  /** `>` with a digit value reaches the route as a strict lower bound. */
  lemma GreaterThanReachesRoute(page: int, limit: int, f: Filters, d: string)
    requires f.ageCmp == ">" && f.ageVal == d && d != [] && AllDigits(d)
    ensures RowsRoute.WhereOf(ListingQuery(page, limit, f)).age ==
              Some(RowsRoute.Gt(Int(DigitsValue(d))))
  {
    ListingQuerySends(page, limit, f, "age");
    DigitsAgeText(f, d);
    RowsRoute.GtQuery(ListingQuery(page, limit, f), DigitsValue(d));
  }

  /** `>=` with a digit value reaches the route as `>` followed by `=N`,
      which is NaN, so the route answers with an empty array. */
  lemma GreaterOrEqualYieldsEmpty(page: int, limit: int, f: Filters, d: string, t: Tables)
    requires f.ageCmp == ">=" && f.ageVal == d && d != [] && AllDigits(d)
    ensures RowsRoute.Handle(ListingQuery(page, limit, f), t, false) == RowsRoute.Bare([])
  {
    ListingQuerySends(page, limit, f, "age");
    DigitsAgeText(f, d);
    RowsRoute.GteQueryYieldsEmpty(ListingQuery(page, limit, f), t, NatToString(DigitsValue(d)));
  }

  /** `=` with a digit value reaches the route as `=N`, which `parseInt`
      reads as NaN, so no age condition is applied at all. */
  lemma EqualsAgeIsIgnored(page: int, limit: int, f: Filters, d: string)
    requires f.ageCmp == "=" && f.ageVal == d && d != [] && AllDigits(d)
    ensures RowsRoute.WhereOf(ListingQuery(page, limit, f)).age.None?
  {
    ListingQuerySends(page, limit, f, "age");
    DigitsAgeText(f, d);
    RowsRoute.EqualsSignQuery(ListingQuery(page, limit, f), DigitsValue(d));
  }

  // ---------------------------------------------------------------------
  // Page count and the answer

  /** `total > 0 ? Math.max(1, Math.ceil(total / limit)) : 1`. */
  function TotalPages(total: nat, limit: nat): (r: nat)
    requires limit > 0
    ensures r >= 1
    ensures total == 0 ==> r == 1
    ensures total > 0 ==> (r - 1) * limit < total <= r * limit
  {
    if total > 0 then
      var c := RowsRoute.CeilDiv(total, limit);
      if c > 1 then c else 1
    else 1
  }

  /** For a non-empty page of Persons the listing counts the same pages as
      the route's `pagination.totalPages`. */
  lemma TotalPagesAgreeWithRoute(total: nat, limit: nat)
    requires limit > 0 && total > 0
    ensures TotalPages(total, limit) == RowsRoute.CeilDiv(total, limit)
  {
  }

  /** What `fetchData` stores from an answer, `None` being a fetch that
      threw: `rows = json.data || []` and
      `total = json.pagination?.total ?? rows.length`. A bare array has
      neither field. */
  function Received(answer: Option<RowsRoute.Response>): (r: (seq<Person>, nat))
    ensures answer.Some? && answer.value.PersonPage? ==>
              r == (answer.value.data, answer.value.pagination.total)
    ensures answer.None? || answer.value.Bare? ==> r == ([], 0)
  {
    match answer
    case Some(PersonPage(data, pagination)) => (data, pagination.total)
    case _ => ([], 0)
  }

  /** A Row fallback or an error shows nothing, on a single page. */
  lemma BareAnswerShowsNothing(items: seq<Record>, limit: nat)
    requires limit > 0
    ensures Received(Some(RowsRoute.Bare(items))).0 == []
    ensures TotalPages(Received(Some(RowsRoute.Bare(items))).1, limit) == 1
  {
  }

  /** A page of Persons reports the count of every match, and the listing
      counts the same number of pages as the route. */
  lemma PersonAnswerTotals(page: Num, limit: Num, w: RowsRoute.Where, t: Tables)
    requires RowsRoute.Respond(page, limit, w, t, false).PersonPage?
    ensures limit.Int? && limit.v > 0 && RowsRoute.WhereValid(w)
    ensures Received(Some(RowsRoute.Respond(page, limit, w, t, false))).1 ==
              |RowsRoute.MatchingPersons(t.persons, w)|
    ensures TotalPages(Received(Some(RowsRoute.Respond(page, limit, w, t, false))).1, limit.v) ==
              RowsRoute.Respond(page, limit, w, t, false).pagination.totalPages
  {
    var total := RowsRoute.PersonPageTotal(page, limit, w, t);
    var r := RowsRoute.Respond(page, limit, w, t, false);
    assert Received(Some(r)).1 == r.pagination.total == total;
    TotalPagesAgreeWithRoute(total, limit.v);
  }

  // ---------------------------------------------------------------------
  // The page's state

  predicate LimitChoice(limit: nat) { limit == 25 || limit == 50 || limit == 100 || limit == 200 }

  class Listing {
    var data: seq<Person>
    var total: nat
    var page: int
    var limit: nat
    var filters: Filters

    /** The controls only offer their listed choices, and every handler
        keeps `page` at least 1. */
    predicate Valid()
      reads this
    {
      page >= 1 && LimitChoice(limit) && SexChoice(filters.sex) && CmpChoice(filters.ageCmp)
    }

    function Pages(): (r: nat)
      reads this
      requires Valid()
      ensures r >= 1
    {
      TotalPages(total, limit)
    }

    /** The pager shows a page that exists. */
    predicate InRange()
      reads this
      requires Valid()
    {
      1 <= page <= Pages()
    }

    /** The query the current state sends. */
    function Query(): Url.Query
      reads this
    {
      ListingQuery(page, limit, filters)
    }

    /** The initial state: no rows, page 1 of 50 rows, no filters. */
    constructor ()
      ensures data == [] && total == 0 && page == 1 && limit == 50 && filters == NoFilters
      ensures Valid() && InRange()
    {
      data := [];
      total := 0;
      page := 1;
      limit := 50;
      filters := NoFilters;
    }

    /** `fetchData`'s result handling. */
    method Receive(answer: Option<RowsRoute.Response>)
      modifies this
      requires Valid()
      ensures Valid()
      ensures (data, total) == Received(answer)
      ensures page == old(page) && limit == old(limit) && filters == old(filters)
    {
      match answer {
        case Some(PersonPage(rows, pagination)) =>
          data := rows;
          total := pagination.total;
        case _ =>
          data := [];
          total := 0;
      }
    }

    /** `<<`, disabled on the first page. */
    method First()
      modifies this
      requires Valid()
      ensures Valid()
      ensures page == if old(page) <= 1 then old(page) else 1
      ensures data == old(data) && total == old(total) && limit == old(limit) && filters == old(filters)
      ensures old(InRange()) ==> InRange()
    {
      if !(page <= 1) {
        page := 1;
      }
    }

    /** `<`: `Math.max(1, p - 1)`, disabled on the first page. */
    method Prev()
      modifies this
      requires Valid()
      ensures Valid()
      ensures page == if old(page) <= 1 then old(page) else old(page) - 1
      ensures data == old(data) && total == old(total) && limit == old(limit) && filters == old(filters)
      ensures old(InRange()) ==> InRange()
    {
      if !(page <= 1) {
        page := if page - 1 > 1 then page - 1 else 1;
      }
    }

    /** `>`: `Math.min(totalPages, p + 1)`, disabled on the last page. */
    method Next()
      modifies this
      requires Valid()
      ensures Valid()
      ensures page == if old(page) >= old(Pages()) then old(page) else old(page) + 1
      ensures data == old(data) && total == old(total) && limit == old(limit) && filters == old(filters)
      ensures old(InRange()) ==> InRange()
    {
      var totalPages := Pages();
      if !(page >= totalPages) {
        page := if totalPages < page + 1 then totalPages else page + 1;
      }
    }

    /** `>>`, disabled on the last page. */
    method Last()
      modifies this
      requires Valid()
      ensures Valid()
      ensures page == if old(page) >= old(Pages()) then old(page) else old(Pages())
      ensures data == old(data) && total == old(total) && limit == old(limit) && filters == old(filters)
      ensures old(InRange()) ==> InRange()
    {
      var totalPages := Pages();
      if !(page >= totalPages) {
        page := totalPages;
      }
    }

    /** The rows-per-page select; it returns to page 1. */
    method SetLimit(choice: nat)
      modifies this
      requires Valid() && LimitChoice(choice)
      ensures Valid() && InRange()
      ensures limit == choice && page == 1
      ensures data == old(data) && total == old(total) && filters == old(filters)
    {
      limit := choice;
      page := 1;
    }

    /** Any of the four filter controls or the reset button: new filter
        values, and back to page 1. */
    method SetFilters(f: Filters)
      modifies this
      requires Valid() && SexChoice(f.sex) && CmpChoice(f.ageCmp)
      ensures Valid() && InRange()
      ensures filters == f && page == 1
      ensures data == old(data) && total == old(total) && limit == old(limit)
    {
      filters := f;
      page := 1;
    }

    method SetNameFilter(name: string)
      modifies this
      requires Valid()
      ensures Valid() && InRange()
      ensures filters == old(filters).(name := name) && page == 1
      ensures data == old(data) && total == old(total) && limit == old(limit)
    {
      SetFilters(filters.(name := name));
    }

    method SetSexFilter(sex: string)
      modifies this
      requires Valid() && SexChoice(sex)
      ensures Valid() && InRange()
      ensures filters == old(filters).(sex := sex) && page == 1
      ensures data == old(data) && total == old(total) && limit == old(limit)
    {
      SetFilters(filters.(sex := sex));
    }

    method SetAgeCmp(cmp: string)
      modifies this
      requires Valid() && CmpChoice(cmp)
      ensures Valid() && InRange()
      ensures filters == old(filters).(ageCmp := cmp) && page == 1
      ensures data == old(data) && total == old(total) && limit == old(limit)
    {
      SetFilters(filters.(ageCmp := cmp));
    }

    method SetAgeVal(v: string)
      modifies this
      requires Valid()
      ensures Valid() && InRange()
      ensures filters == old(filters).(ageVal := v) && page == 1
      ensures data == old(data) && total == old(total) && limit == old(limit)
    {
      SetFilters(filters.(ageVal := v));
    }

    method Reset()
      modifies this
      requires Valid()
      ensures Valid() && InRange()
      ensures filters == NoFilters && page == 1
      ensures data == old(data) && total == old(total) && limit == old(limit)
    {
      SetFilters(NoFilters);
    }
  }

  /** `>` then `<` from any page before the last comes back to that page,
      and the rows, total, page size and filters stay as they were. */
  method PagerRoundTrip(listing: Listing)
    modifies listing
    requires listing.Valid() && 1 <= listing.page < listing.Pages()
    ensures listing.Valid() && listing.page == old(listing.page)
    ensures listing.data == old(listing.data) && listing.total == old(listing.total)
    ensures listing.limit == old(listing.limit) && listing.filters == old(listing.filters)
  {
    listing.Next();
    assert listing.page == old(listing.page) + 1 > 1;
    listing.Prev();
  }

  /** `>>` then `<<` from the first page comes back to the first page, and
      nothing else changes. */
  method EndsRoundTrip(listing: Listing)
    modifies listing
    requires listing.Valid() && listing.page == 1 && listing.Pages() > 1
    ensures listing.Valid() && listing.page == 1
    ensures listing.data == old(listing.data) && listing.total == old(listing.total)
    ensures listing.limit == old(listing.limit) && listing.filters == old(listing.filters)
  {
    listing.Last();
    assert listing.page == listing.Pages() > 1;
    listing.First();
  }
}
