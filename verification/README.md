# Product catalog API — a Dafny model

This project models the core of a small Express service that keeps a product
catalog in memory and serves it over HTTP (`server.js`). The catalog is a list
of product records: id, name, description, price, category and in-stock flag.
The service answers eight kinds of request behind an API-key check:

- **Read path:**
  - listing with a case-insensitive category filter and a page window;
  - case-insensitive substring search on names;
  - per-category counts;
  - lookup by id.
- **Write path:**
  - create with a required-field check;
  - partial update;
  - delete.

The model keeps the catalog as an immutable `seq<Product>` in insertion order.
Each handler is a pure function of the current catalog and the request inputs.
It returns either an error kind, which leaves the catalog unchanged, or its
answer together with the new catalog.

Modules, leaf to root:

- `JsValues` (js_values.dfy): request fields as `Option` (`None` is
  `undefined`), and JavaScript truthiness for strings (`""` is falsy) and
  numbers (`0` is falsy).
- `JsString` (js_string.dfy): ASCII `toLowerCase` and `includes`, with
  `includes` proved equal to a reference definition of "occurs as a substring".
- `JsArray` (js_array.dfy): `filter`, `findIndex`, `find`, `slice` (with its
  negative-index rules) and `splice(i, 1)` as functions over sequences.
  `filter` is proved equal, in both directions, to the order-preserving
  selection of the kept positions.
- `Responses` (responses.dfy): error kinds, with their status codes and the
  message each one is answered with.
- `Catalog` (catalog.dfy): `Product`, the seed records and lookup by id. It also
  defines the catalog invariant `WellKept`: ids are unique, and every record has
  non-empty strings and a non-zero price.
- `Queries` (queries.dfy): the four read handlers.
- `Mutations` (mutations.dfy): the three write handlers.
- `Routes` (routes.dfy): the API-key gate and the dispatch of one request. It
  also proves that any run of requests keeps the catalog invariant.
- `StatsObject` (stats_object.dfy): the statistics handler as written, counting
  into a plain JavaScript object, compared with the intended count (see
  Findings).
- `SeedExamples` (seed_examples.dfy): the documented behaviour on the three
  seed records.

Where the description of the service and the code differ, the model follows
the code:

- Price is described as "expected positive", but the create check only
  rejects a falsy price. A negative price is accepted, and so is one given by
  an update. The model's record invariant is therefore "price is non-zero".
- A create must have all five fields. An `inStock` of `false` counts as
  present, because the check is `inStock === undefined`. The update keeps
  the truthiness tests on name, description, price and category. An update
  therefore cannot clear a field to `""` or set a price of `0`: such a value
  is silently ignored. `Merge` states this, and `UpdateKeepsWellKept` relies
  on it.
- The search endpoint's 400 (`BadRequest`, "Please provide a name to
  search") and the create endpoint's 400 (`ValidationError`, "Missing
  required fields") are separate error kinds with the same status code.

## Model

| member | source | states |
|---|---|---|
| JsString.Includes | server.js:91 | `hay.includes(needle)` holds exactly when `needle` occurs in `hay` at some position (reference definition `IsSubstring`) |
| JsString.ToLowerCase | server.js:71 | lower-casing keeps the length, turns each upper-case ASCII letter into its lower-case letter (code point plus 32), and keeps every other character in place |
| JsString.EqualsIgnoringCaseIsPointwise | server.js:71 | two strings compare equal after lower-casing iff they have the same length and agree character by character up to case |
| JsString.ToLowerCaseIdempotent | server.js:71 | lower-casing an already lower-cased string changes nothing |
| JsArray.Filter | server.js:71 | the filtered array is no longer than the input, holds only elements of the input that pass the predicate, and holds every element that passes it |
| JsArray.FilterCharacterization | server.js:71 | `r` is the result of `filter` iff `r` lists the elements at exactly the passing positions, in increasing position order (both directions) |
| JsArray.FindIndex | server.js:148 | `findIndex` returns -1 iff no element passes; otherwise it returns the first passing position |
| JsArray.Find | server.js:109 | `find` is `undefined` iff no element passes; otherwise it is the element at the first passing position |
| JsArray.Slice | server.js:77 | `slice` returns a contiguous run of the array, starting where `start` resolves to; its length is the distance between the resolved bounds, or 0 when `end` resolves at or before `start` |
| JsArray.SliceRelativeBounds | server.js:77 | a negative bound counts back from the end, one beyond the length counts as 0 (so an `end` there gives `[]`), and a bound past the end counts as the end |
| JsArray.SliceNonNegative | server.js:77 | with `0 <= start <= end`, `slice` is the window `[start, end)` clipped to the array: at most `end - start` elements, and empty once `start` is past the end |
| JsArray.RemoveAt | server.js:151 | `splice(i, 1)` leaves one element fewer, keeps the elements before `i` in place, shifts the later ones down by one, and removes exactly `s[i]` from the multiset |
| Catalog.IndexOf | server.js:148 | the first position holding the id, or -1 exactly when no record holds it |
| Catalog.SeedWellKept | server.js:32-57 | the three seed records have unique ids, non-empty strings and non-zero prices |
| Queries.List | server.js:65-84 | the listing's `total` is at most the catalog size, its page holds at most `total` records, and every listed record is in the catalog |
| Queries.FilterByCategoryExact | server.js:70-72 | an absent or empty category keeps the whole catalog; a non-empty one keeps exactly the records whose category equals it up to case, in catalog order |
| Queries.ListWindow | server.js:66-83 | for `page >= 1` and `limit >= 0` (defaults 1 and 10): `page` is echoed and `total` is the filtered count, whatever the page. `data` is the filtered list cut to `[(page-1)*limit, (page-1)*limit + limit)` and clipped, so it holds at most `limit` records, and none past the end |
| Queries.EveryRecordOnItsPage | server.js:75-77 | with a positive `limit`, item `m` (for `m < limit`) of page `q + 1` exists whenever position `q * limit + m` is in the filtered list, and is the record there |
| Queries.Search | server.js:87-93 | a missing or empty name is answered 400, and only then; otherwise a record is in the answer iff its lower-cased name contains the lower-cased query |
| Queries.SearchKeepsOrder | server.js:91 | the search answer is the order-preserving selection of the matching records |
| Queries.Stats | server.js:96-105 | the statistics have exactly the categories present in the catalog as keys (exact strings), each with a count of at least 1. This is the intended count, kept free of inherited object members (see Findings) |
| Queries.StatsCounts | server.js:99-102 | each category's count is the number of records whose category is exactly that string, and an absent category has no records |
| Queries.StatsSumIsSize | server.js:99-102 | the counts sum to the number of records in the catalog |
| StatsObject.StatsAsWritten | server.js:96-102 | the object the code builds has own keys only for categories present in the catalog, and never an own `__proto__` |
| StatsObject.AgreesAwayFromInherited | server.js:96-102 | when no category is named after an `Object.prototype` member, the object the code builds holds exactly the intended counts, as numbers |
| StatsObject.ToStringCategoryIsNotCounted | server.js:96-102 | one record of category `toString` leaves a non-number under `toString` where the intended count is 1 |
| StatsObject.ProtoCategoryIsDropped | server.js:96-102 | records of category `__proto__` never appear in the object the code builds, although the intended count has them |
| Queries.Get | server.js:108-112 | 404 iff no record has the id; otherwise the answer is the record at the first position holding it |
| Mutations.Create | server.js:114-131 | 400 iff name, description or category is falsy, price is absent or 0, or `inStock` is absent (`false` is accepted). On success the catalog is the old one with exactly one record appended, carrying the new id and the supplied fields |
| Mutations.CreateKeepsWellKept | server.js:116-129 | creating under an id not yet in use keeps ids unique and records complete |
| Mutations.CreateThenGet | server.js:120-130 | a record created under a fresh id is what a lookup of that id then returns |
| Mutations.Merge | server.js:138-142 | the id is kept; `inStock` is overwritten whenever supplied, including by `false`; the other four fields are overwritten only by a truthy value; a complete record stays complete |
| Mutations.MergeIdempotent | server.js:138-142 | merging the same body twice gives the same record as merging it once |
| Mutations.Update | server.js:133-145 | 404 iff no record has the id; otherwise the record at the first matching position is replaced by its merge with the body, and every other record keeps its place and value |
| Mutations.UpdateKeepsWellKept | server.js:133-145 | an update keeps ids unique and records complete |
| Mutations.UpdateThenGet | server.js:135-144 | after an update, a lookup of the id returns the updated record |
| Mutations.UpdateIdempotent | server.js:133-145 | repeating the same update gives the same answer and leaves the catalog as the first one left it |
| Mutations.Delete | server.js:147-153 | 404 iff no record has the id. Otherwise the answer is the record at the first matching position, and the catalog loses exactly that record: one shorter, order kept |
| Mutations.DeleteThenGet | server.js:148-151 | with unique ids, a lookup of a deleted id is answered 404 |
| Mutations.DeleteKeepsWellKept | server.js:147-153 | a delete keeps ids unique and records complete |
| Mutations.DeleteUndoesCreate | server.js:114-153 | deleting a record just created under a fresh id returns that record and restores the catalog as it was before the create |
| Routes.Handle | server.js:23-153 | for a request whose body was parsed: without the configured key it gets the 403 answer, reaches no handler and leaves the catalog unchanged. With the key, each route is answered from its handler: the welcome text, listing and statistics with 200; search and lookup with 200 and their value, or with the error kind's status and message; create with 201, update and delete with 200, the written record and the new catalog, or with the error and the catalog unchanged. Every status is 200, 201, 400, 403 or 404 |
| Routes.StatsAnswerAsWritten | server.js:96-104 | with the key, the statistics answer is 200 with counts that, as numbers, equal the object the code builds whenever no category is named after an `Object.prototype` member |
| Routes.ConfiguredKey | server.js:10 | the configured key is the `API_KEY` setting when it is present and non-empty, and `mysecretkey123` otherwise; it is never empty |
| Routes.Authorized | server.js:23-29 | a request passes the gate exactly when its `x-api-key` header is present and equal to the configured key |
| Routes.HandleKeepsWellKept | server.js:59-153 | any request keeps the catalog invariant, provided a create draws an id not yet in use |
| Routes.RunKeepsWellKept | server.js:32-153 | from a well-kept catalog, such as the seed, any sequence of requests with fresh create ids leaves a well-kept catalog |
| SeedExamples.ListAllSeed | server.js:65-84 | on the seed catalog, a listing without parameters is page 1 with total 3 and all three records in order |
| SeedExamples.ListElectronicsAnyCase | server.js:65-84 | on the seed catalog, category `ELECTRONICS` lists the two electronics records with total 2 |
| SeedExamples.ListSecondPageOfOne | server.js:75-82 | on the seed catalog, `page=2&limit=1` lists only the second record, with total 3 |
| SeedExamples.SearchPhone | server.js:87-93 | on the seed catalog, searching `phone` finds only the Smartphone, and a search without a name is a 400 |
| SeedExamples.SeedStats | server.js:96-105 | the seed statistics are electronics 2 and kitchen 1 |
| SeedExamples.CreateWithoutPrice | server.js:114-118 | on the seed catalog, a create without a price is answered with the missing-fields error |
| SeedExamples.UpdateOnlyInStock | server.js:138-142 | an update of only `inStock: false` clears the flag and keeps every other field |
| SeedExamples.DeleteSeedRecord | server.js:147-153 | deleting an unknown id is a 404; after deleting id 2, looking it up is a 404 |

## Left out

- Express, dotenv and body-parser wiring, the port and `app.listen`
  (server.js:3-13, 162-164). These are process plumbing. The `API_KEY`
  setting is a parameter of `Routes.ConfiguredKey`, not read from the
  environment, and the resulting key is a parameter of `Routes.Handle`.
- The logger middleware (server.js:16-20). It only writes to the console and
  reads the clock.
- The API-key check is modelled only as a comparison of an optional header
  with the configured key (`Routes.Authorized`). Header parsing is not modelled.
- The global error handler (server.js:156-159) and `errors/errorHandler.js`.
  They format and log unexpected faults, and the latter is never installed.
  No modelled handler can fault. Because `bodyParser.json()` (server.js:13)
  runs before the key check, a request with a malformed JSON body is answered
  500 by that handler, with or without a key. `Routes.Request` holds only
  requests whose body parsed.
- Route matching is not modelled. `Routes.Request` is a request already matched
  to its handler, with its parameters read. In Express, `/search` and `/stats`
  are registered before `/:id`, so GET of a product whose id is "search" or
  "stats" would reach those handlers. The 404 for unknown paths is left out too.
- `uuidv4()` (server.js:121): the new id is the parameter `newId`. Its
  freshness is a premise of the lemmas about ids, not something the handler
  checks.
- JavaScript's dynamic typing of request values. Name, description and
  category are strings, price is an integer and `inStock` a boolean, each
  optional. A `null` `inStock`, a string price and a non-string name are not
  modelled, and neither are floating-point prices.
- Coercion of the `page`/`limit` query strings (`page - 1`, `parseInt`) is
  not modelled. They arrive as already-parsed integers, so NaN, fractional
  values and `parseInt` accepting trailing garbage are out of scope. `slice`'s
  handling of negative bounds is modelled, so a page below 1 or a negative
  limit has a defined answer.
- `toLowerCase` is modelled for ASCII letters only; Unicode case mapping is
  not.
- Routes.Handle: the statistics answer is the intended count `Queries.Stats`,
  not the object the code builds (see Findings). For a category named after
  an `Object.prototype` member, the real service answers differently: a string
  for `toString`, no key for `__proto__`. `Routes.StatsAnswerAsWritten` shows
  that the two agree for every other catalog.
- In `StatsObject`, the string that `+` yields from an inherited member is
  abstracted to `NotANumber`. Its exact text depends on the engine's rendering
  of functions and objects.
- JSON rendering of answers, and the order of keys in the statistics object,
  are not modelled.

## Findings

| source | as written | input that shows it | evidently intended | confidence | as-written member | corrected member |
|---|---|---|---|---|---|---|
| server.js:96-102 | counts into a plain `{}`, reading `stats[cat]` before each increment; for a category named `toString`, the read finds the inherited method, which is truthy, so `+ 1` concatenates | a catalog with one record of category `toString` | `{"toString": 1}`, the number of records with that category (`Queries.StatsCounts`) | high; not executed | StatsObject.ToStringCategoryIsNotCounted | Queries.Stats |
| server.js:96-102 | the same loop assigns to `stats["__proto__"]` for a category named `__proto__`; that setter ignores a non-object value | a catalog with one record of category `__proto__` | `{"__proto__": 1}`, the number of records with that category (`Queries.StatsCounts`) | high; not executed | StatsObject.ProtoCategoryIsDropped | Queries.Stats |
