# Gaza death toll viewer — a verified model of its core logic

The application is a Next.js site over a Prisma store. It publishes a list of
people killed in Gaza. The records arrive by CSV upload and are shown two ways:

- an English listing at `/en`, with a name, sex and age filter, a pager, a
  gallery and a slideshow;
- a data grid at `/`, which sends the grid's filter model to the same rows
  API.

Around these sit:

- a middleware that serves every path without a locale under the Arabic tree;
- a header and a language switcher that move between the Arabic and English
  trees;
- an administrator allowlist taken from an environment variable, and a
  `whoami` endpoint;
- a small Markdown-to-HTML converter.

This project models those pieces in Dafny and proves what each of them
promises. There is one module per source file, plus three shared modules:

| module | file | models |
|---|---|---|
| `Js` | js.dfy | the JavaScript primitives the code relies on: `parseInt`, `Number` restricted to decimal integers, `String(n)`, `trim`, `split`, `includes`, `replace` of a first match, ASCII lower-casing, `charCodeAt` as UTF-16 code units and the ToInt32 conversion behind `x \| 0` (section 7.1.6 of ECMA-262) |
| `Url` | url.dfy | `URLSearchParams` as a list of name/value pairs: `get`, `set`, `append` |
| `Store` | store.dfy | the database tables as sequences of Person and Row records, with `where`, `orderBy: { createdAt: 'desc' }`, `skip` and `take` as filter, stable sort and slice |
| `RowsRoute` | rows_route.dfy | `GET /api/rows` (`app/api/rows/route.ts`) |
| `UploadRoute` | upload_route.dfy | `POST /api/upload` (`app/api/upload/route.ts`) |
| `UploadSuccess` | upload_success.dfy | the upload result page (`app/upload/success/page.tsx`) |
| `EnglishListing` | en_listing.dfy | the English listing page (`app/en/page.tsx`) |
| `GridHome` | grid_home.dfy | the grid home page (`app/page.tsx`) |
| `Markdown` | markdown.dfy | `markdownToHtml` (`lib/markdown.ts`) |
| `Middleware` | middleware.dfy | `middleware.ts` |
| `Header` | header.dfy | `components/Header.tsx` |
| `LanguageSwitcher` | language_switcher.dfy | `app/_components/LanguageSwitcher.tsx` |
| `Auth` | auth.dfy | `src/lib/auth.ts` |
| `Whoami` | whoami.dfy | `app/api/whoami/route.ts` |
| `Slideshow` | slideshow.dfy | both copies of the slideshow, `app/_components/Slideshow.tsx` and `components/Slideshow.tsx`, which run the same state machine |
| `Wrappers` | wrappers.dfy | `Option` |

The two slideshow files hold the same component: `components/Slideshow.tsx` is
`app/_components/Slideshow.tsx` with every line four lines earlier (state at
25-26, `nextSlide`/`prevSlide` at 28-34, the timer at 37-42, the keys at 46-62,
the counter at 134). The table cites the `app/_components` copy, and each
`Slideshow` row holds for both.

Where the code changes state step by step, the model is imperative. This
covers:

- the `where` clause the rows route builds field by field;
- the delete-then-insert-in-batches upload;
- the hash loops of the listing;
- the grid's `forEach` and `Set` loops;
- the middleware's rewrite of `nextUrl.pathname`;
- the pager and filter state of the listing;
- the slideshow's `currentIndex` and `isPlaying` state.

Each such method is proved equal to a function of its inputs, and the
properties are lemmas about that function. The rest is functions and lemmas.

Time, I/O and calls into code that is not modelled are parameters:

- the store's clock (`clock`, `now`);
- a fault injected at a given store call;
- `new Date(...)` parsing (`parseDate`);
- the date formatting of a value without a `T` (`viaDate`);
- the session's user id;
- the environment variables.

Two behaviours of the code are stated as lemmas because they are easy to miss:

- The rows route tests `includes('>')` and `includes('<')` before `>=` and
  `<=`, so those two branches can never run. `>=30` becomes
  `{gt: parseInt("=30")}`, which is NaN, and the store rejects it. The listing's
  `>=` and `<=` filters and the grid's inclusive number filters therefore
  always show an empty result. See `RowsRoute.NoGteOrLte`,
  `RowsRoute.GteTextIsGtNaN`, `EnglishListing.GreaterOrEqualYieldsEmpty` and
  `GridHome.InclusiveAgeFilterYieldsEmpty`.
- The listing's `=` age option sends `=N`. The route reads that with
  `parseInt`, gets NaN and sets no age condition, so the option filters
  nothing (`EnglishListing.EqualsAgeIsIgnored`).

Two further points where the pieces of the code do not agree, and the model
follows what each piece does:

- The Person type of both pages declares `sex?: 'm' | 'f'` (app/page.tsx:20,
  app/en/page.tsx:16). The route copies any non-empty value into `where.sex`
  verbatim. Any other value matches no imported Person, so the answer falls
  back to the Row table
  (`RowsRoute.SexCopiedVerbatim`, `RowsRoute.OtherSexMatchesNoImportedPerson`).
- The listing reads the total with `??`, the grid with `||`. So a
  `pagination.total` of 0 is kept by the listing, and the grid replaces it by
  the row count (`EnglishListing.Received`, `GridHome.TotalRowsOf`).

## Model

| member | source | states |
|---|---|---|
| Js.ToInt32 | app/en/page.tsx:129 | `x \| 0` gives a signed 32-bit value congruent to `x` modulo 2^32 |
| Js.ToInt32InRange | app/en/page.tsx:129 | a value already in signed 32-bit range is unchanged by `\| 0` |
| Js.Utf16 | app/en/page.tsx:128-129 | `charCodeAt` reads 16-bit code units, at least one per character |
| Js.Trim | src/lib/auth.ts:9 | `trim()` is a contiguous slice of the input with no white space at either end |
| Js.TrimSurroundings | src/lib/auth.ts:9 | everything `trim()` removes is white space |
| Js.TrimNoSpace | src/lib/auth.ts:9 | a string without surrounding white space trims to itself |
| Js.TrimAllSpace | src/lib/auth.ts:9 | a string of white space trims to the empty string |
| Js.Split | src/lib/auth.ts:9 | `split(',')` gives at least one piece, and no piece holds the separator |
| Js.SplitJoin | src/lib/auth.ts:9 | joining the pieces of `split` with the separator gives the string back |
| Js.SplitJoinInverse | app/api/rows/route.ts:27 | splitting a join of separator-free pieces gives the pieces back |
| Js.IndexOf | app/api/rows/route.ts:26 | the first index where the substring starts, or -1 exactly when it occurs nowhere |
| Js.IncludesChar | app/api/rows/route.ts:26 | `includes` of a one-character string is membership of that character |
| Js.IncludesFirstChar | app/api/rows/route.ts:38 | a string that includes a pattern includes the pattern's first character |
| Js.ReplaceFirstCharDeletes | app/api/rows/route.ts:33 | `replace('>', '')` deletes the first `>` and leaves a string without `>` alone |
| Js.NatToString | app/api/upload/route.ts:76 | `String(n)` for a natural number is a non-empty run of digits with no leading zero |
| Js.NatToStringValue | app/api/upload/route.ts:76 | the digits of `String(n)` have the value `n` |
| Js.DigitPrefixLongest | app/api/rows/route.ts:33 | `parseInt` reads the longest run of digits at the start |
| Js.ParseIntNaN | app/api/rows/route.ts:33 | `parseInt` of a text starting with a character that is not a digit, a sign or white space is NaN |
| Js.ParseIntDigits | app/api/rows/route.ts:10-11 | `parseInt` of a run of digits is their value |
| Js.ParseIntNegativeDigits | app/api/rows/route.ts:45 | `parseInt` of a minus sign and digits is the negated value |
| Js.IntToString | app/en/page.tsx:99-100 | `String(n)` is non-empty, starts with `-` exactly for a negative `n`, and is otherwise digits |
| Js.ParseInt | app/api/rows/route.ts:33 | `parseInt` is NaN exactly when no digit follows the optional white space and sign, and a negative value came after a `-` |
| Js.SignedDigitsParse | app/api/rows/route.ts:45 | `parseInt` of a trimmed sign and digits is their signed value |
| Js.ParseIntToString | app/en/page.tsx:99-100 | `parseInt(String(n))` is `n` for every integer `n` of the model's exact integer type |
| Js.NumberDigits | app/api/upload/route.ts:52 | `Number` of a run of digits is their value |
| Js.NumberNatToString | app/upload/success/page.tsx:7 | `Number(String(n))` is `n` |
| Js.Number | app/api/rows/route.ts:27 | an empty or blank text is 0, and a number read from non-empty text is what `parseInt` reads |
| Js.NumberEmpty | app/api/rows/route.ts:27 | `Number('')` is 0 |
| Js.NumberNaN | app/api/upload/route.ts:59 | a text holding a character other than white space, a sign or a digit is NaN |
| Js.Lower | app/api/rows/route.ts:58-59 | lower-casing keeps the length, maps `A`-`Z` to `a`-`z` and leaves every other character alone |
| Url.Get | app/api/rows/route.ts:15-17 | `get` returns a value paired with the name, and nothing exactly when no pair has the name |
| Url.Append | app/page.tsx:43 | `append` adds one pair at the end and keeps the others |
| Url.Set | app/en/page.tsx:99-103 | after `set`, `get` of that name is the value and every other name reads as before |
| Url.SetOther | app/en/page.tsx:99-103 | `set` of one name leaves `get` of any other name unchanged |
| Url.GetConcat | app/page.tsx:43-81 | `get` on pairs followed by more pairs finds the first list's value when it has one |
| Url.SetAppendsNew | app/api/upload/route.ts:74-76 | `set` of a new name appends the pair at the end |
| Store.Filter | app/api/rows/route.ts:66-67 | the kept records satisfy the condition and come from the table, and every satisfying record is kept |
| Store.FilterNone | app/api/rows/route.ts:66-67 | when no record satisfies the condition, nothing is kept |
| Store.FilterConcat | app/en/page.tsx:179 | filtering keeps order: it distributes over concatenation |
| Store.SortDesc | app/api/rows/route.ts:68 | ordering by `createdAt` is a permutation of the input |
| Store.SortDescSorted | app/api/rows/route.ts:68 | the ordered records have non-increasing `createdAt` and are a permutation of the input |
| Store.InsertDescSorted | app/api/rows/route.ts:68 | inserting into a descending list keeps it descending |
| Store.Slice | app/api/rows/route.ts:69-70 | `skip`/`take` give at most `take` records, the ones from position `skip` on |
| Store.SliceSorted | app/api/rows/route.ts:68-70 | a slice of an ordered list is ordered |
| RowsRoute.ParseAge | app/api/rows/route.ts:26-49 | the age condition is a range exactly when the text holds `-`; it is unset only without `-` and when `parseInt` is NaN; equality holds the parsed number |
| RowsRoute.GtText | app/api/rows/route.ts:32-34 | `>N` parses to `gt: N` |
| RowsRoute.LtText | app/api/rows/route.ts:35-37 | `<N` parses to `lt: N` |
| RowsRoute.EqualsSignText | app/api/rows/route.ts:44-49 | `=N` parses to no condition |
| RowsRoute.WhereOf | app/api/rows/route.ts:22-61 | each of the age, sex and name conditions is set only when its parameter is present and non-empty; sex and name then hold the parameter |
| RowsRoute.BuildWhere | app/api/rows/route.ts:22-61 | the `where` built by the if-chain of assignments is the age, sex and name condition of the query |
| RowsRoute.SplitOfDash | app/api/rows/route.ts:27 | `'-5'.split('-')` is `['', '5']` |
| RowsRoute.DashMeansRange | app/api/rows/route.ts:26-31 | any age text holding `-` becomes a range of `Number` of its first two parts, before any operator; `-5` is the range 0 to 5 |
| RowsRoute.NoGteOrLte | app/api/rows/route.ts:32-43 | the `gte`-only and `lte`-only branches are unreachable |
| RowsRoute.GteTextIsGtNaN | app/api/rows/route.ts:32-34 | `>=` with digits is caught by the `>` branch and gives `gt: NaN` |
| RowsRoute.LteTextIsLtNaN | app/api/rows/route.ts:35-37 | `<=` with digits is caught by the `<` branch and gives `lt: NaN` |
| RowsRoute.BareAge | app/api/rows/route.ts:44-49 | a text without operators that parses gives exact equality, and one that does not leaves `where.age` unset |
| RowsRoute.SexCopiedVerbatim | app/api/rows/route.ts:52-54 | any non-empty `sex` parameter becomes `where.sex` as it is; an empty one sets nothing |
| RowsRoute.NameFilterOr | app/api/rows/route.ts:56-61 | with only a name filter, a Person matches exactly when `name` or `enName` contains it, ignoring case |
| RowsRoute.NameFilterCaseInsensitive | app/api/rows/route.ts:56-60 | two name filters equal up to case match the same Persons |
| RowsRoute.OtherSexMatchesNone | app/api/rows/route.ts:52-54 | a sex other than `m` or `f` matches no Person whose sex is null, `m` or `f`, which is every sex an upload stores |
| RowsRoute.OtherSexMatchesNoImportedPerson | app/api/rows/route.ts:52-96 | with such a sex, the answer is the Row fallback |
| RowsRoute.CeilDiv | app/api/rows/route.ts:84 | `Math.ceil(total / limit)` is the least count of pages of `limit` covering `total` |
| RowsRoute.Datas | app/api/rows/route.ts:96 | `rows.map((r) => r.data)` keeps each row's data in place |
| RowsRoute.PersonPageOf | app/api/rows/route.ts:66-71 | at most `limit` Persons, and none exactly when `offset` is past the matches or `limit` is 0 |
| RowsRoute.Respond | app/api/rows/route.ts:66-100 | an error gives the empty array; a Person answer needs a working store and valid paging and conditions, echoes page and limit and holds between 1 and `limit` Persons |
| RowsRoute.Handle | app/api/rows/route.ts:6-100 | a failing store gives the empty array; a Person answer echoes the page and limit read from the query and holds between 1 and `limit` Persons |
| RowsRoute.PersonPageOfFacts | app/api/rows/route.ts:66-71 | the Person page has at most `limit` matching Persons from the table, newest first, the ones from `offset` on in that order |
| RowsRoute.PersonPageFacts | app/api/rows/route.ts:10-86 | a Person answer echoes page and limit, holds the page for `offset = (page-1)*limit`, counts every match under the same `where`, and has `totalPages` the ceiling of total over limit |
| RowsRoute.PersonPageTotal | app/api/rows/route.ts:75-86 | a Person answer has a positive limit and a positive total, and its pagination is exactly page, limit, total and the page count |
| RowsRoute.EmptyPageFallsBack | app/api/rows/route.ts:75-96 | an empty Person page gives the bare array of Row data for the same offset and limit |
| RowsRoute.FallbackIgnoresFilters | app/api/rows/route.ts:89-96 | the Row fallback is the same whatever the filters |
| RowsRoute.ErrorsYieldEmptyArray | app/api/rows/route.ts:97-100 | a failing store, a NaN or negative paging value or a NaN condition gives an empty array |
| RowsRoute.GteQueryYieldsEmpty | app/api/rows/route.ts:32-34 | an `age` of `>=` and digits makes the answer an empty array |
| RowsRoute.LteQueryYieldsEmpty | app/api/rows/route.ts:35-37 | an `age` of `<=` and digits makes the answer an empty array |
| RowsRoute.GtQuery | app/api/rows/route.ts:32-34 | an `age` of `>N` gives `gt: N` |
| RowsRoute.LtQuery | app/api/rows/route.ts:35-37 | an `age` of `<N` gives `lt: N` |
| RowsRoute.EqualsSignQuery | app/api/rows/route.ts:44-49 | an `age` of `=N` parses to NaN and sets no age condition |
| RowsRoute.BareNumberQuery | app/api/rows/route.ts:44-47 | an `age` of `N` gives `age: N` |
| UploadRoute.SuccessParamsPairs | app/api/upload/route.ts:73-76 | a success redirects with `ok=true`, the table and the count, in that order |
| UploadRoute.FailureParamsPairs | app/api/upload/route.ts:91-93 | a failure redirects with `ok=false` and the error message, or `Upload failed` |
| UploadRoute.Coerce | app/api/upload/route.ts:51-64 | coercion copies `id`, `name` and `en_name`; `age` is null exactly when empty or not finite; `dob` exactly when empty or invalid; `sex` unless `m` or `f`; `source` when empty |
| UploadRoute.SampleRecord | app/api/upload/route.ts:51-64 | a record with a numeric age, sex `m` and empty date and source coerces to those values |
| UploadRoute.Typed | app/api/upload/route.ts:51 | `records.map` keeps the number of records |
| UploadRoute.TypedAt | app/api/upload/route.ts:51-64 | each typed row is the coercion of the record at the same position |
| UploadRoute.Batch | app/api/upload/route.ts:67-69 | each batch holds between 1 and 1000 rows |
| UploadRoute.Batches | app/api/upload/route.ts:67-71 | there are no batches exactly when the start is past the rows, and each batch holds between 1 and 1000 rows |
| UploadRoute.FirstOccurrences | app/api/upload/route.ts:70 | skipping duplicates keeps at most the rows it was given, each one of them |
| UploadRoute.BatchesPartition | app/api/upload/route.ts:67-71 | the batches are consecutive slices of at most 1000 whose concatenation is the typed rows |
| UploadRoute.FirstOccurrencesIds | app/api/upload/route.ts:70 | skipping duplicates keeps every id that occurs |
| UploadRoute.FirstOccurrencesUnique | app/api/upload/route.ts:70 | skipping duplicates leaves each id once |
| UploadRoute.FirstOccurrenceKept | app/api/upload/route.ts:70 | the first row with an id is the one stored |
| UploadRoute.DatasInsertSkipping | app/api/upload/route.ts:70 | `createMany` with `skipDuplicates` appends the batch's rows whose id is new |
| UploadRoute.AppendNewConcat | app/api/upload/route.ts:68-71 | inserting two batches one after the other is inserting their concatenation |
| UploadRoute.AppendNewFirstOccurrences | app/api/upload/route.ts:68-71 | inserting after the first occurrences of some rows gives the first occurrences of all |
| UploadRoute.LoadFromFailed | app/api/upload/route.ts:67-71 | the batch loop fails exactly when the fault stops it before the end |
| UploadRoute.LoadFromAppendNew | app/api/upload/route.ts:67-71 | the batch loop stores the rows it reached, in order, first occurrence winning |
| UploadRoute.LoadAll | app/api/upload/route.ts:48-71 | from an emptied table, the stored Persons are the first occurrences of the rows before the failing batch |
| UploadRoute.RowsOf | app/api/upload/route.ts:82 | one Row per record, holding that record |
| UploadRoute.RowPath | app/api/upload/route.ts:80-88 | the Row path keeps the Persons; on success the Rows are one per record, on failure the old Rows or none, and the reply is success or the thrown error |
| UploadRoute.Post | app/api/upload/route.ts:28-95 | a missing file answers 400 and changes nothing; an unreadable form or a malformed CSV changes nothing and redirects with the error; only a missing file answers 400 |
| UploadRoute.PersonPath | app/api/upload/route.ts:46-78 | the Person path replies with success and the count, or with the thrown error |
| UploadRoute.Database.DeleteAllPersons | app/api/upload/route.ts:48 | `person.deleteMany` empties the Person table and keeps the Rows |
| UploadRoute.Database.CreateMany | app/api/upload/route.ts:70 | `createMany` inserts the batch, skipping known ids |
| UploadRoute.Database.DeleteAllRows | app/api/upload/route.ts:81 | `row.deleteMany` empties the Row table and keeps the Persons |
| UploadRoute.Database.CreateRows | app/api/upload/route.ts:82 | the transaction appends one Row per record |
| UploadRoute.UploadPersons | app/api/upload/route.ts:46-78 | the delete and the batch loop leave the store and reply as the Person path says |
| UploadRoute.UploadRows | app/api/upload/route.ts:80-88 | the delete and the inserts leave the store and reply as the Row path says |
| UploadRoute.HandlePost | app/api/upload/route.ts:28-95 | the handler leaves the store and replies as the whole POST says |
| UploadRoute.PostTakesPersonPath | app/api/upload/route.ts:40-46 | with all seven Person keys in the first record and a Person model, the Person path runs on the coerced rows |
| UploadRoute.PersonUploadStoresFirstOccurrences | app/api/upload/route.ts:40-77 | a Person upload stores the first occurrence of each id, with unique ids, leaves Rows alone and reports the record count |
| UploadRoute.PersonPathStores | app/api/upload/route.ts:48-77 | without a fault the Person path stores the first occurrences and reports success |
| UploadRoute.PersonPathFails | app/api/upload/route.ts:67-94 | a batch that throws leaves the earlier batches stored and redirects with the error |
| UploadRoute.FailingBatchKeepsEarlierBatches | app/api/upload/route.ts:67-94 | the same for a whole POST |
| UploadRoute.CountIncludesSkippedDuplicates | app/api/upload/route.ts:70-76 | with a repeated id the reported count is still the record count, above the rows stored |
| UploadRoute.ParsedReplies | app/api/upload/route.ts:73-94 | a parsed upload replies with success for Person or Row and the record count, or with the thrown error |
| UploadRoute.EmptyCsvTakesRowPath | app/api/upload/route.ts:40-42 | an empty CSV takes the Row path, empties the Rows and reports 0 |
| UploadRoute.RowUploadReplacesRows | app/api/upload/route.ts:80-88 | the Row path replaces the Rows by one per record, in order, and keeps the Persons |
| UploadRoute.ThrownErrorsRedirect | app/api/upload/route.ts:89-94 | a form or CSV that throws changes nothing and redirects with `ok=false` and the message |
| UploadRoute.MissingFileIsBadRequest | app/api/upload/route.ts:33-34 | a missing file answers 400 `Missing file` and changes nothing |
| UploadSuccess.Values | app/upload/success/page.tsx:4 | a search parameter is absent exactly when it has no value, and its first value is what `get` reads |
| UploadSuccess.Decode | app/upload/success/page.tsx:5-12 | the payload is a success exactly when `ok` is the single value `true` |
| UploadSuccess.DecodeFields | app/upload/success/page.tsx:6-8 | a missing table, count or error, or an empty error, decodes to null; a count of digits decodes to its number |
| UploadSuccess.SuccessEntries | app/upload/success/page.tsx:5-8 | the success parameters read back as `ok=true`, the table and the count, with no error |
| UploadSuccess.SuccessRoundTrip | app/upload/success/page.tsx:5-12 | the upload route's success parameters decode to `ok: true`, the table and the record count |
| UploadSuccess.FailureRoundTrip | app/upload/success/page.tsx:5-12 | the upload route's failure parameters decode to `ok: false` and the error message |
| UploadSuccess.HandlerRoundTrip | app/upload/success/page.tsx:5-12 | every parsed upload redirects, and a success decodes to the Person or Row table with the record count |
| EnglishListing.Hash | app/en/page.tsx:128-129 | the running hash stays in signed 32-bit range after every step |
| EnglishListing.IdHash | app/en/page.tsx:127-130 | the hash of an id, over its UTF-16 code units, is a signed 32-bit value |
| EnglishListing.RunningHash | app/en/page.tsx:127-130 | the `for` loop computes the id's hash and stays in range |
| EnglishListing.HashIsWrappedPolynomial | app/en/page.tsx:129 | wrapping after every step equals wrapping the exact polynomial once |
| EnglishListing.StepExactInDoubles | app/en/page.tsx:129 | `hash * K + charCode` for K of 31, 33 or 37 stays below 2^53, so the double arithmetic is exact |
| EnglishListing.SingleCharHash | app/en/page.tsx:127-130 | a one-character id hashes to its code unit |
| EnglishListing.Abs | app/en/page.tsx:154 | `Math.abs` is the value or its negation, never negative |
| EnglishListing.LowBitClearIffEven | app/en/page.tsx:131 | `(hash & 1) === 0` holds exactly for even hashes |
| EnglishListing.HasImageForId | app/en/page.tsx:126-132 | the method computes whether the id has an image |
| EnglishListing.HasImage | app/en/page.tsx:126-132 | an id has an image exactly when its 31-hash is even |
| EnglishListing.SquareImageUrl | app/en/page.tsx:135-157 | the URL is `/api/seed/` followed by one of the nine seed names |
| EnglishListing.SquareImageUrlForId | app/en/page.tsx:150-157 | the method computes that URL |
| EnglishListing.Category | app/en/page.tsx:171-177 | the category is one of civilian, medical staff, journalist or child |
| EnglishListing.CategoryForId | app/en/page.tsx:171-177 | the method computes that category |
| EnglishListing.DodNumerator | app/en/page.tsx:164-165 | `Math.abs(hash) % 10000` lies in [0, 10000), so the normalised fraction lies in [0, 1) |
| EnglishListing.DodNumeratorForId | app/en/page.tsx:163-165 | the method computes that numerator |
| EnglishListing.GalleryData | app/en/page.tsx:179 | the gallery holds exactly the rows that have an image |
| EnglishListing.GalleryKeepsOrder | app/en/page.tsx:179 | the gallery keeps the rows' order |
| EnglishListing.FormatDateOnly | app/en/page.tsx:81-93 | null gives `''`; a value with `T` gives the text before its first `T`; any other value goes to the date formatting |
| EnglishListing.SetIf | app/en/page.tsx:101-103 | a conditional `set` changes the name's value only when the condition holds |
| EnglishListing.ListingQuery | app/en/page.tsx:98-103 | the query's `page` and `limit` are `String` of the listing's page and limit |
| EnglishListing.ListingQuerySends | app/en/page.tsx:98-103 | the query holds page and limit, the trimmed name when not blank, the sex unless `all`, and `cmp + parseInt(val)` when both are set |
| EnglishListing.RouteReadsPaging | app/en/page.tsx:99-100 | the route reads back the page and limit that were sent |
| EnglishListing.RouteReadsNameAndSex | app/en/page.tsx:101-102 | the route's name condition is the trimmed name when not blank, and its sex condition the select unless `all` |
| EnglishListing.DigitsAgeText | app/en/page.tsx:103 | for a value of digits, the age text is the comparison followed by the number without leading zeros |
| EnglishListing.GreaterThanReachesRoute | app/en/page.tsx:103 | the `>` option reaches the route as `gt` of the value |
| EnglishListing.GreaterOrEqualYieldsEmpty | app/en/page.tsx:241 | the `>=` option makes every answer an empty array |
| EnglishListing.EqualsAgeIsIgnored | app/en/page.tsx:242 | the `=` option sets no age condition at the route |
| EnglishListing.TotalPages | app/en/page.tsx:123 | the page count is at least 1, exactly 1 for no rows, and otherwise the least number of pages covering the total |
| EnglishListing.TotalPagesAgreeWithRoute | app/en/page.tsx:123 | for rows, the page count is the route's `Math.ceil` |
| EnglishListing.Received | app/en/page.tsx:107-113 | a Person answer gives its rows and total; a bare array or an error gives no rows and 0 |
| EnglishListing.BareAnswerShowsNothing | app/en/page.tsx:107-109 | the Row fallback shows no row, on one page |
| EnglishListing.PersonAnswerTotals | app/en/page.tsx:107-123 | for a Person answer the listing's total is the number of matches and its page count is the route's |
| EnglishListing.PagerRoundTrip | app/en/page.tsx:349-350 | `>` then `<` from any page before the last returns to it, and nothing else changes |
| EnglishListing.EndsRoundTrip | app/en/page.tsx:348-351 | with more than one page, `>>` then `<<` from page 1 returns to page 1, and nothing else changes |
| EnglishListing.Listing.Pages | app/en/page.tsx:123 | the listing's page count is at least 1 |
| EnglishListing.Listing.constructor | app/en/page.tsx:62-75 | initially no rows, page 1, 50 rows per page and no filters |
| EnglishListing.Listing.Receive | app/en/page.tsx:107-113 | the rows and total are what the answer gives, and nothing else changes |
| EnglishListing.Listing.First | app/en/page.tsx:348 | `<<` goes to page 1 unless disabled, and keeps the page in range |
| EnglishListing.Listing.Prev | app/en/page.tsx:349 | `<` goes back one page unless disabled, and keeps the page in range |
| EnglishListing.Listing.Next | app/en/page.tsx:350 | `>` goes forward one page unless disabled, and keeps the page in range |
| EnglishListing.Listing.Last | app/en/page.tsx:351 | `>>` goes to the last page unless disabled, and keeps the page in range |
| EnglishListing.Listing.SetLimit | app/en/page.tsx:208 | changing the rows per page sets the limit and page 1 |
| EnglishListing.Listing.SetFilters | app/en/page.tsx:226-249 | changing the filters resets the page to 1 |
| EnglishListing.Listing.SetNameFilter | app/en/page.tsx:226 | typing a name sets the name filter and page 1 |
| EnglishListing.Listing.SetSexFilter | app/en/page.tsx:230 | choosing a sex sets the sex filter and page 1 |
| EnglishListing.Listing.SetAgeCmp | app/en/page.tsx:238 | choosing a comparison sets it and page 1 |
| EnglishListing.Listing.SetAgeVal | app/en/page.tsx:246 | typing an age sets it and page 1 |
| EnglishListing.Listing.Reset | app/en/page.tsx:249 | reset clears every filter and sets page 1 |
| GridHome.AppendEntry | app/page.tsx:46-80 | one filter entry appends its one pair, or nothing |
| GridHome.FetchParams | app/page.tsx:42-81 | the loop builds `limit=1000` first, then at most one pair per entry in entry order |
| GridHome.Params | app/page.tsx:46-81 | the entries give at most one pair each |
| GridHome.ParamsConcat | app/page.tsx:46-81 | the pairs of entries are the pairs of each entry in turn |
| GridHome.ParamsOne | app/page.tsx:46-80 | one entry gives its value under its key, or nothing |
| GridHome.SkippedEntries | app/page.tsx:47-78 | a null entry, one without `filterType`, a number filter without type or value or with an unknown type, an empty text filter and an empty set filter append nothing |
| GridHome.ParamsWithoutKey | app/page.tsx:46-81 | a key no entry has is never sent |
| GridHome.GridGet | app/page.tsx:43-81 | with distinct keys, the route reads under a key exactly the value its entry appended |
| GridHome.GridAbsent | app/page.tsx:43-81 | a key no entry has reads as absent at the route |
| GridHome.ThousandAtRoute | app/page.tsx:43 | the text `1000` reads as limit 1000, and a missing page as page 1 |
| GridHome.RouteReadsPaging | app/page.tsx:43 | the route always reads a limit of 1000 and, without a `page` column, page 1 |
| GridHome.NumberValue | app/page.tsx:50-63 | a number filter sends its comparison prefix followed by the number |
| GridHome.NumberPrefix | app/page.tsx:54-66 | a known comparison gives a prefix of at most two characters, and only for a non-empty comparison type |
| GridHome.ExactPrefix | app/page.tsx:54-63 | greater than, less than and equals map to `>`, `<` and no prefix |
| GridHome.InclusivePrefix | app/page.tsx:58-61 | greater-or-equal and less-or-equal map to `>=` and `<=` |
| GridHome.PrefixedAgeAtRoute | app/page.tsx:54-63 | the route reads `>N`, `<N` and `N` as `gt`, `lt` and equality |
| GridHome.AgeEntrySent | app/page.tsx:46-81 | the `age` entry's value is what the route reads under `age` |
| GridHome.AgeFilterAtRoute | app/page.tsx:50-67 | greater than, less than and equals on `age` reach the route as `gt`, `lt` and equality; an unknown type sets no condition |
| GridHome.InclusiveAgeAtRoute | app/page.tsx:58-61 | an inclusive prefix makes the route answer an empty array |
| GridHome.InclusiveAgeFilterYieldsEmpty | app/page.tsx:58-61 | greater-or-equal and less-or-equal on `age` make the answer an empty array |
| GridHome.TotalRowsOf | app/page.tsx:92 | the total is 0 exactly when `pagination.total` is absent or 0 and there are no rows |
| GridHome.Position | app/page.tsx:113-119 | the first position of a key |
| GridHome.PositionUnique | app/page.tsx:113-119 | the first position is the only one before which the key does not occur |
| GridHome.Dedup | app/page.tsx:113-119 | the `Set` holds at most the keys added, each one of them |
| GridHome.DedupFacts | app/page.tsx:113-119 | the `Set` holds each key once, exactly the keys added, in the order they were first added |
| GridHome.DedupAbsorbs | app/page.tsx:116 | adding keys already held changes nothing |
| GridHome.DedupDistinct | app/page.tsx:116 | distinct keys come out as they went in |
| GridHome.AddKeys | app/page.tsx:116 | adding one row's keys gives the `Set` of all keys seen so far |
| GridHome.ColumnDefs | app/page.tsx:112-121 | the nested loops compute the distinct keys of the object rows |
| GridHome.AllKeysMembers | app/page.tsx:114-117 | a key is seen exactly when some object row has it |
| GridHome.ColumnsFacts | app/page.tsx:112-121 | one column per distinct key of the object rows, with no duplicates, in first-seen order |
| GridHome.NonObjectRowIgnored | app/page.tsx:115 | an array or other non-object row adds no column |
| GridHome.SameKeysEveryRow | app/page.tsx:112-121 | when every row has the same distinct keys, the columns are those keys |
| GridHome.PersonRows | app/page.tsx:14-23 | a page of Persons is that many objects with the Person fields |
| GridHome.PersonFieldsDistinct | app/page.tsx:14-23 | the Person fields are distinct |
| GridHome.BareAnswerHasNoRows | app/page.tsx:90-92 | a bare-array answer loads no row and shows a total of 0 |
| GridHome.PersonAnswerTotals | app/page.tsx:90-92 | a Person answer shows the number of matches and one column per Person field |
| GridHome.Grid.constructor | app/page.tsx:32-35 | initially no rows and a total of 0 |
| GridHome.Grid.Receive | app/page.tsx:90-95 | the rows are `data.data \|\| []` and the total `pagination.total \|\| rows.length`; a thrown fetch changes nothing |
| Markdown.ImageRewritten | lib/markdown.ts:5 | for words of letters, `![alt](src)` becomes `<img src="src" alt="alt" />` |
| Markdown.LinkRuleWouldCaptureImage | lib/markdown.ts:18-21 | run first, the link rule would turn an image of letters into `!` and an anchor |
| Markdown.ImageNeverAnchor | lib/markdown.ts:5-54 | an image of letters converts to the image tag alone, never an anchor, and is not wrapped in a paragraph |
| Markdown.ImageTagPassesThrough | lib/markdown.ts:51 | a block starting with an image tag passes through unchanged |
| Markdown.ImageTagInert | lib/markdown.ts:5-21 | an image tag of letters holds no character a later rule reacts to |
| Markdown.H3Rewritten | lib/markdown.ts:7-9 | for a word of letters `t`, `### t` becomes `<h3>t</h3>` |
| Markdown.H2Rewritten | lib/markdown.ts:7-9 | for a word of letters `t`, `## t` becomes `<h2>t</h2>`, not an `h3` |
| Markdown.H1Rewritten | lib/markdown.ts:9 | for a word of letters `t`, `# t` becomes `<h1>t</h1>` |
| Markdown.NotHeading | lib/markdown.ts:7-9 | a line whose marker does not start with `#` is left alone by the heading rules |
| Markdown.QuoteRewritten | lib/markdown.ts:11 | for a word of letters `t`, `> t` becomes `<blockquote>t</blockquote>` |
| Markdown.RuleRewritten | lib/markdown.ts:12 | a line that is exactly `---` becomes `<hr />` |
| Markdown.LongerDashesNotRule | lib/markdown.ts:12 | `----` is not a rule |
| Markdown.LineRulesFixed | lib/markdown.ts:7-12 | a single line not starting with `#`, `>` or `-` is left alone by every line rule |
| Markdown.StrongRewritten | lib/markdown.ts:14-16 | for a word of letters `t`, `**t**` becomes `<strong>t</strong>`, by the bold rule and after all inline rules |
| Markdown.EmWouldSplitStrong | lib/markdown.ts:14-15 | run first, the italic rule would split `**t**` into empty emphasis |
| Markdown.EmptyEmphasis | lib/markdown.ts:15 | `**` alone becomes `<em></em>` under the italic rule |
| Markdown.SingleStarsNotStrong | lib/markdown.ts:14 | `*t*` is left alone by the bold rule |
| Markdown.EmRewritten | lib/markdown.ts:15 | for a non-empty word of letters `t`, `*t*` becomes `<em>t</em>` after all inline rules |
| Markdown.CodeRewritten | lib/markdown.ts:16 | for a non-empty word of letters `t`, `` `t` `` becomes `<code>t</code>`, and an empty pair of backticks is left alone |
| Markdown.LinkRewritten | lib/markdown.ts:18-21 | for words of letters, `[text](href)` becomes an anchor with `target="_blank"` and `rel="noopener noreferrer"` |
| Markdown.LinkInParagraph | lib/markdown.ts:18-54 | a link of letters on its own converts to a paragraph holding the anchor |
| Markdown.AnchorWrapped | lib/markdown.ts:51-52 | a block starting with an anchor is wrapped in a paragraph |
| Markdown.AnchorInert | lib/markdown.ts:18-45 | an anchor of letters holds no character a later rule reacts to |
| Markdown.LinkSourceInert | lib/markdown.ts:5-21 | a link of letters passes the image, line and emphasis rules untouched and becomes one anchor |
| Markdown.TagInlinesFixed | lib/markdown.ts:5-21 | text without `!`, `*`, a backtick, `[` or a line break is left alone by every inline rule |
| Markdown.ReplaceAllFixed | lib/markdown.ts:5-21 | a text without a rule's opener is left alone by that rule |
| Markdown.ReplaceAllNoMatch | lib/markdown.ts:5-21 | a text where a rule matches nowhere is left alone |
| Markdown.ReplaceLinesNoMatch | lib/markdown.ts:7-12 | a text where a line rule matches at no line start is left alone |
| Markdown.TwoItemList | lib/markdown.ts:24-45 | two consecutive `- ` lines, or two numbered lines, of letters become one list with one `li` each |
| Markdown.ItemTexts | lib/markdown.ts:28-29 | no list item is empty: empty pieces are dropped |
| Markdown.SplitItems | lib/markdown.ts:27 | a list body of any number of items of letters splits into those items |
| Markdown.ItemTextsWords | lib/markdown.ts:28-29 | items of letters are all kept, none being empty |
| Markdown.ItemsHtml | lib/markdown.ts:24-33 | any number of items of letters become one `li` each, in order |
| Markdown.ReplaceLists | lib/markdown.ts:24-45 | the list rules give the empty text exactly for the empty text, and leave a text without a line break alone when it is not at a line start |
| Markdown.ListsFixed | lib/markdown.ts:24-45 | a single line not starting with `-` or a digit is left alone by the list rules |
| Markdown.ReplaceListsNoMatch | lib/markdown.ts:24-45 | a text where no list starts is left alone |
| Markdown.BlankLinesSeparate | lib/markdown.ts:48-54 | two lines separated by two or more newlines become two blocks joined by one newline |
| Markdown.OneNewlineOneBlock | lib/markdown.ts:49 | a single newline does not split a block |
| Markdown.SingleNewlineBreaks | lib/markdown.ts:52 | a paragraph's inner newline becomes `<br />` |
| Markdown.LineBreaksConcat | lib/markdown.ts:52 | the newline rewrite works piece by piece |
| Markdown.BlockStartsWithTag | lib/markdown.ts:51-52 | every converted block is non-empty and starts with `<`: its own tag when it passes the tag test, or `<p>` |
| Markdown.LetterNotTag | lib/markdown.ts:51 | a block starting with a letter is not a tag block |
| Markdown.ParagraphsSingle | lib/markdown.ts:48-54 | a text without newlines is one block |
| Markdown.Blocks | lib/markdown.ts:50-53 | one output block per input block |
| Markdown.TagFixed | lib/markdown.ts:5-54 | an inert fragment starting with `<` passes every rule unchanged and stays one block |
| Markdown.Paragraphs | lib/markdown.ts:47-54 | the output starts with the first block's conversion, and so with `<` |
| Markdown.MarkdownToHtml | lib/markdown.ts:1-57 | the HTML is never empty and starts with `<` |
| Markdown.EmptyInput | lib/markdown.ts:1-57 | the empty text converts to an empty paragraph |
| Middleware.AnyLocale | middleware.ts:10-12 | the `some` test holds exactly when the path is `/locale` or starts with `/locale/` for a listed locale |
| Middleware.HasLocale | middleware.ts:10-12 | a path has a locale exactly when it is `/ar` or `/en` or starts with `/ar/` or `/en/` |
| Middleware.Served | middleware.ts:14-19 | a path with a locale is served as is, and any other path as `/ar` followed by it |
| Middleware.Handle | middleware.ts:6-20 | the handler rewrites exactly the paths without a locale, to the served path |
| Middleware.RewriteIdempotent | middleware.ts:10-19 | for a path starting with `/`, the rewritten path has a locale, so a second pass changes nothing |
| Middleware.ServedKeepsPath | middleware.ts:18 | the served path ends with the requested one and differs exactly when the path has no locale |
| Middleware.LookalikePathsRewritten | middleware.ts:10-18 | `/english` and `/arabic` are not locale paths and are rewritten under `/ar` |
| Header.LocaleOf | components/Header.tsx:16-21 | the locale is English exactly when the path starts with `/en` |
| Header.StripEn | components/Header.tsx:29 | removing a leading `/en` leaves the rest, or `/` when nothing remains |
| Header.ToggleLabel | components/Header.tsx:78 | the toggle reads `English` exactly on Arabic pages |
| Header.ToggleTarget | components/Header.tsx:24-36 | from English the `/en` is stripped; from Arabic `/en` is put before the whole path |
| Header.BasePath | components/Header.tsx:41 | the base path is `/en` exactly for English, and empty for Arabic |
| Header.NavLinks | components/Header.tsx:47-67 | the four links start with the base path, the first being the base path and `/` |
| Header.HeaderState.SyncLocale | components/Header.tsx:16-22 | the effect sets the locale read from the path |
| Header.HeaderState.ToggleLocale | components/Header.tsx:24-36 | the toggle sends the browser to the toggled path |
| Header.ToggleTwiceFromArabic | components/Header.tsx:24-36 | for a path starting with `/` but not `/en`, toggling twice gives the path back |
| Header.ToggleTwiceFromEnglish | components/Header.tsx:24-36 | for an English path under `/en/`, toggling twice gives the path back |
| Header.ToggleEdgeCases | components/Header.tsx:17-34 | `/` toggles to `/en/`, `/en` to `/` and back to `/en/`, and `/english` is read as English and toggles to `glish` |
| Header.NavLinksStayInLocale | components/Header.tsx:41-65 | every nav link stays in the page's locale |
| LanguageSwitcher.SwitchTarget | app/_components/LanguageSwitcher.tsx:12-22 | from English the `/en` is stripped, falling back to `/`; from Arabic `/en` is put before the path, and `/` maps to `/en` |
| LanguageSwitcher.Label | app/_components/LanguageSwitcher.tsx:31 | the label is `EN` on Arabic pages and `عربي` on English pages |
| LanguageSwitcher.SwitchTwiceFromArabic | app/_components/LanguageSwitcher.tsx:12-22 | for a path starting with `/` but not `/en`, switching twice gives the path back |
| LanguageSwitcher.AgreesWithHeader | app/_components/LanguageSwitcher.tsx:12-22 | the switcher and the header agree on every path except `/`, which they send to `/en` and `/en/` |
| LanguageSwitcher.IsEnglish | app/_components/LanguageSwitcher.tsx:9-10 | the switcher reads English exactly when the header does |
| Auth.EnvText | src/lib/auth.ts:9 | an unset variable reads as the empty string |
| Auth.TrimmedNonEmptyMembers | src/lib/auth.ts:9 | the kept ids are exactly the non-empty trimmed entries |
| Auth.AdminIds | src/lib/auth.ts:9 | an id is listed exactly when it is non-empty and some comma-separated entry trims to it |
| Auth.IsAdmin | src/lib/auth.ts:18-20 | a user is an admin exactly when some comma-separated entry trims to the user id and is non-empty |
| Auth.AssertAdmin | src/lib/auth.ts:7-16 | `assertAdmin` returns the user id exactly when `isAdmin` holds, and otherwise throws `Unauthorized` with status 401 |
| Auth.NobodyWhenUnset | src/lib/auth.ts:19-20 | with the variable unset or empty, nobody is an admin |
| Auth.AdminIdsTrimmed | src/lib/auth.ts:9 | no listed id starts or ends with white space |
| Auth.PaddedUserIdNotAdmin | src/lib/auth.ts:10 | a user id with white space at either end is never an admin |
| Auth.SpacesAroundEntryIgnored | src/lib/auth.ts:9-10 | spaces around an entry are ignored: ` u ` admits exactly `u` |
| Whoami.ClerkConfigured | app/api/whoami/route.ts:7-9 | configured only when both keys are set and non-empty |
| Whoami.Get | app/api/whoami/route.ts:6-20 | the answer is `{clerkConfigured: false}` exactly when not configured, and otherwise lists the admin ids |
| Whoami.UnconfiguredIgnoresSession | app/api/whoami/route.ts:11-13 | when not configured the answer does not depend on the session |
| Whoami.AdminAgreesWithAuth | app/api/whoami/route.ts:15-17 | `admin` is `isAdmin` for the same variable and user id |
| Whoami.UserIdReported | app/api/whoami/route.ts:19 | an absent or empty user id is reported as null, and any other as it is |
| Whoami.PlaceholderKeyNotConfigured | app/api/whoami/route.ts:9 | a publishable key holding `placeholder`, or a missing secret key, means not configured whatever the session |
| Slideshow.Advance | app/_components/Slideshow.tsx:32-34 | with data, a valid index stays valid; a NaN index, or stepping without data, gives NaN |
| Slideshow.NextIndex | app/_components/Slideshow.tsx:32-34 | with data, the next index of a valid index is valid; without data it is NaN |
| Slideshow.PrevIndex | app/_components/Slideshow.tsx:36-38 | with data, the previous index of a valid index is valid; without data it is NaN |
| Slideshow.Progress | app/_components/Slideshow.tsx:72 | nothing is rendered exactly when there is no data |
| Slideshow.Slideshow.constructor | app/_components/Slideshow.tsx:29-30 | the slideshow starts at index 0, playing |
| Slideshow.Slideshow.NextSlide | app/_components/Slideshow.tsx:32-34 | `nextSlide` moves to the next index and keeps it valid |
| Slideshow.Slideshow.PrevSlide | app/_components/Slideshow.tsx:36-38 | `prevSlide` moves to the previous index and keeps it valid |
| Slideshow.Slideshow.TogglePlay | app/_components/Slideshow.tsx:92 | the play button flips `isPlaying` and keeps the index |
| Slideshow.Slideshow.Tick | app/_components/Slideshow.tsx:41-46 | a timer tick advances the index only while playing |
| Slideshow.Slideshow.KeyDown | app/_components/Slideshow.tsx:50-66 | Escape only asks to close; the arrows only move the index; space only toggles play and prevents the default; other keys change nothing |
| Slideshow.NextStep | app/_components/Slideshow.tsx:33 | next is the following index, or 0 after the last |
| Slideshow.PrevStep | app/_components/Slideshow.tsx:37 | previous is the preceding index, or the last before 0 |
| Slideshow.NextPrevInverse | app/_components/Slideshow.tsx:32-38 | next then previous and previous then next both restore the index |
| Slideshow.AdvanceWraps | app/_components/Slideshow.tsx:32-34 | up to `n` steps forward land on `i + k`, wrapped once |
| Slideshow.FullCycle | app/_components/Slideshow.tsx:32-34 | `n` steps forward return to the start |
| Slideshow.EmptyDataRendersNothing | app/_components/Slideshow.tsx:72 | without data the index becomes NaN and nothing is rendered |
| Slideshow.ProgressInRange | app/_components/Slideshow.tsx:137 | the counter `currentIndex + 1` lies in [1, n] |
| Slideshow.TogglingTwiceRestores | app/_components/Slideshow.tsx:61-63 | toggling play twice restores the flag and the index |

## Left out

- Prisma itself is not modelled: SQL, the `$transaction` atomicity and connection handling. The tables are sequences and each call is a function on them.
- RowsRoute.NameFilterOr: `mode: 'insensitive'` is modelled as ASCII lower-casing on both sides. Unicode case folding is left out.
- RowsRoute.ErrorsYieldEmptyArray: a NaN or negative `skip`, a NaN or negative `take` and a NaN bound in `where.age` are modelled as store errors that throw. Prisma's handling of a negative `take`, which reads backwards, is not modelled.
- Store.SortDescSorted: records with equal `createdAt` keep their table order. The database leaves their order unspecified.
- The CSV parser (`csv-parse`) is not modelled. The route receives its output as a list of records, with a missing column read as the empty string, or as a parse error that throws.
- UploadRoute.Coerce: `Number` is modelled for optional white space, an optional sign and decimal digits only. Fractions, exponents, hexadecimal and `Infinity` are left out. `new Date(...)` is a parameter.
- UploadRoute.Coerce: `String(r.id)` is modelled as the identity, since the parsed CSV values are already strings.
- The upload route's `'person' in prisma` check is a parameter (`hasPersonModel`).
- `formatDateOnly`'s `new Date` branch depends on the local time zone. It is a parameter (`viaDate`); only the `T` split is modelled.
- `dodForId`'s use of `Date.now`, the floating-point scaling and `toISOString` are left out. Only the hash and the integer numerator are modelled.
- EnglishListing.StepExactInDoubles: only the multipliers 31, 33 and 37 the page uses are covered.
- `fetch`, JSON parsing, React state scheduling, rendering, `setInterval` timing and DOM listeners are left out. A fetch is a parameter holding its answer or its failure, and a timer firing is the `Tick` event.
- GridHome.PersonRows: a Person answer reaches the grid as rows with the eight fields of the page's Person type. Fields a JSON encoder drops, such as undefined optional fields, are not modelled.
- AG Grid's filter model is taken as given: each entry has a type, a comparison type, a filter value held as its `toString()` text and a list of set values. How the grid produces it is not modelled.
- URL percent-encoding and the `toString()` of the query are left out. Queries are lists of name/value pairs.
- The slideshow's rendering and images, the Header's dictionary lookup and the `router.push` and `window.location` navigations are left out. The navigation target is the modelled result.
- The middleware's `matcher` configuration is left out; every path the middleware sees is an input.
- Markdown.ImageRewritten, and the other Markdown rule lemmas: stated for words of letters only. The functions model the regular expressions in general (lazy `.*?`, `\s+` runs, `^`/`$` per line, the case-insensitive tag test). Their rewriting is proved only on those shapes.
- Clerk's `auth()` is a parameter: the session's user id, possibly absent.
- RowsRoute.DashMeansRange: `Number` is modelled on integer text only, so a bound such as the `1.5` of `1.5-3` reads as NaN here, where JavaScript reads 1.5.
- Js.ParseInt: the radix detection of `parseInt` is left out. JavaScript reads `0x2` as hexadecimal 2; the model reads the `0` and stops, giving 0, so `page=0x2` is page 2 in JavaScript and page 0 here.
- Js.ParseIntToString: numbers are exact unbounded integers. JavaScript numbers are doubles, so integers beyond 2^53 are inexact and `String` writes 10^21 and above in exponent form (`1e+21`, which `parseInt` reads as 1). The round trip holds in JavaScript only for safe integers.
- Markdown.TwoItemList: the extent of the list match is proved for two items. The split into items and one `li` per item are proved for any number of items (Markdown.SplitItems, Markdown.ItemsHtml).
- GridHome.Params: its contract bounds only the number of pairs. Which pairs are sent is stated by GridHome.ParamsConcat, GridHome.ParamsOne and GridHome.GridGet.
