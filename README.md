# gitter post feed, in Dafny

gitter is a small Go web server for a message feed that is stored in SQLite. This project
models its post feed: the `Server` with its page counter, and the three operations in `main.go`
that use the counter.

- **makeServer** seeds the counter with `SELECT MAX(page) FROM posts`. The result is 0 when
  the table is empty.
- **submitPost** checks the request in order: the method, then the form, then the presence
  of a `message` field. It then advances the counter by one and inserts a row tagged with the
  new page. The counter is never rolled back, so a failed insert leaves a permanent gap in the
  page numbers.
- **getIndex** reads the `page` query parameter with `strconv.Atoi`, ignoring the error. It
  computes the bound `counter - page * 10` in int64 arithmetic. It then lists at most ten
  rows with `page <= bound`, newest `created` first.

Modules:

- `Int64` (int64.dfy): Go's int64 and its two's-complement wrap-around.
- `Strconv` (strconv.dfy): `strconv.Atoi` on a 64-bit platform, including its values on a
  syntax error (0) and on a range error (the nearest bound). It also holds the decimal
  formatting that Atoi inverts.
- `Http` (http.dfy): the parts of a request the handlers read. `Lookup` is `values[key][0]`.
- `Posts` (posts.dfy): the posts table as a class whose `rows` INSERT extends.
  - The two queries: `MaxPage`, plus `Eligible` followed by `Newest` for
    `WHERE page <= ? ORDER BY created DESC LIMIT 10`.
  - `IsTopByCreated`: what SQL promises of an ordered, limited selection. It holds the right
    number of rows, drawn from the table (`Count` gives multiplicities), newest first, with no
    row left out that is newer than a row kept.
- `Gitter` (server.dfy): the `Server` class and its three operations, each as a method
  following the Go control flow. The handlers' storage errors are parameters that name the
  failing step.
- `Scenario` (scenario.dfy): "hello" then "world" posted to an empty table.

Storage failures, the random post id and the storage-assigned `created` timestamp are
parameters of the methods. `getIndex` has no `modifies` clause, so it provably changes neither
the counter nor the table.

## Model

| member | source | states |
|---|---|---|
| Int64.Wrap | main.go:240-241 | the int64 result is congruent to the integer result modulo 2^64, and equal to it when it is in range |
| Strconv.ScanDecimal | main.go:236 | the unsigned scan accumulates exactly when the text is all digits and its value is at most 2^64 - 1, and then holds that value; it stops with a syntax error exactly when it meets a non-digit before the digits read so far exceed 2^64 - 1; otherwise (the digits before the first non-digit overflow) it stops with a range error |
| Strconv.Atoi | main.go:236 | for an optional sign followed only by digits, at least one: the signed value with no error when it fits in int64, otherwise the minimum (minus sign) or maximum (otherwise) with a range error. A syntax error, read as 0, happens exactly for empty text, a lone sign, or a non-digit met before any overflow; a range error yields the bound on the side of the sign; success implies sign-and-digits text read at its value |
| Strconv.AtoiSyntaxExamples | main.go:236 | "1.5", "+x" and "-" each give (0, syntax error) |
| Strconv.AtoiInvertsFormatInt | static/script.js:14-20 | Atoi reads back every int64 written in decimal, as the page links write it, with no error |
| Http.Lookup | main.go:231-232 | None exactly when no pair carries the key; otherwise the value of the first pair that carries it |
| Posts.Table.Insert | main.go:313-323 | a successful INSERT appends exactly the new row |
| Posts.MaxPage | main.go:43-54 | NULL exactly for an empty table; otherwise a page that is stored and is at least every stored page |
| Posts.CountIsMultiplicity | main.go:223 | the occurrence count used for selections is the multiset multiplicity of the rows |
| Posts.Eligible | main.go:223 | `WHERE page <= bound` keeps no more rows than the table has, each at or below the bound; its full characterisation is EligibleIsFilter |
| Posts.EligibleIsFilter | main.go:223 | `WHERE page <= bound` keeps each row at or below the bound exactly as often as it is stored, and no other row |
| Posts.EligibleKeepsAll | main.go:223 | when every stored page is at or below the bound, the filter returns the whole table |
| Posts.EligibleKeepsChronological | main.go:223 | the filter preserves creation order: when `created` strictly increases along the table, it strictly increases along the filtered rows |
| Posts.DrawnFromEligible | main.go:223 | rows drawn from the filtered table are at or below the bound and are stored at least as often |
| Posts.NewestIndex | main.go:223 | the chosen row has the latest `created` among the rows |
| Posts.Newest | main.go:223 | `ORDER BY created DESC LIMIT k` yields k rows, or every row when there are fewer; its full contract is NewestIsTopByCreated |
| Posts.NewestIsTopByCreated | main.go:223 | the evaluation of `ORDER BY created DESC LIMIT k` satisfies the SQL contract: min(k, n) rows drawn from the table, newest first, no left-out row newer than the last kept |
| Posts.NewestOfChronological | main.go:223 | on rows in creation order, the query yields the last k rows in reverse insertion order |
| Posts.Project | main.go:263-272 | each scanned row becomes the Post of its content and created columns, one for one and in order |
| Gitter.InitialCounter | main.go:43-70 | the seeded counter is 0 for an empty table; otherwise it is a stored page and every stored page is at or below it |
| Gitter.Message | main.go:291-302 | submitPost has a message exactly for a POST with a parsed form that carries a `message` pair, and the message is the value of the first such pair (`post[0]`), possibly empty |
| Gitter.PageParameter | main.go:231-237 | a query without a `page` pair reads as page 0 |
| Gitter.PageParameterReadsText | main.go:231-237 | the first `page` value reads as 0 when Atoi rejects it as a syntax error, as its signed value when well-formed, and as the int64 bound on the side of its sign when out of range |
| Gitter.PageParameterReadsPage | main.go:231-237 | a `page` value that is a decimal int64, negative or not, reads as that number |
| Gitter.FeedBound | main.go:239-241 | without overflow the bound is exactly counter - 10 * page |
| Gitter.FeedBoundIsWrappedDifference | main.go:239-241 | in every case the bound is congruent to counter - 10 * page modulo 2^64, the two's-complement result |
| Gitter.FeedBoundIsExact | main.go:239-241 | without overflow, page 0 gives the counter, a negative page raises the bound above it, and a positive page lowers it |
| Gitter.LargerPageNarrowsFeed | main.go:239-243 | a larger page parameter gives a bound no higher, and no row is eligible more often than before |
| Gitter.PageParameterWrapsAround | main.go:241 | the page parameter 922337203685477581 wraps the product around, so on a fresh server the bound is 2^63 - 2, above that of page 0 |
| Gitter.FeedRows | main.go:223-243 | the feed query for a counter and a request's query returns at most ten rows; its full contract is FeedIsNewestEligible |
| Gitter.FeedIsNewestEligible | main.go:223-243 | the feed holds at most ten rows, each at or below the bound and each stored at least as often, and is the top ten of the eligible rows by `created` |
| Gitter.FirstPageIsLatest | main.go:223-243 | on rows in creation order with the counter covering every page, page 0 lists the last ten posts in reverse insertion order |
| Gitter.FeedOfChronological | main.go:223-243 | on rows in creation order, any page lists the latest eligible rows, latest first |
| Gitter.StepThrough | main.go:250-273 | the Step/Scan loop either fails at the faulting call, exactly when that call is reached, or collects the projection of every row in order |
| Gitter.Server.constructor | main.go:59 | a new counter starts at 0 |
| Gitter.Server.Add | main.go:67 | the counter advances by the wrapped sum, and the new value is returned |
| Gitter.Server.GetIndex | main.go:207-282 | a non-GET request gives 405. A storage or template failure that is reached gives 500. Otherwise the response renders the projected feed for the current counter and `page`. The counter and the table are unchanged |
| Gitter.Server.SubmitPost | main.go:284-331 | the three refusals (405, 400, 400) and an open or prepare failure each leave the counter and the table unchanged. A failed insert advances the counter without adding a row. A success advances the counter by one and appends the row tagged with the new page. Covering all stored pages is preserved, and the new page is above every earlier one |
| Gitter.MakeServer | main.go:31-73 | every initialisation failure is reported as such; otherwise a fresh server whose counter is the largest stored page (0 when there is none) and covers the table |
| Scenario.HelloWorldFrontPage | main.go:223-243 | after "hello" and "world" with the counter at 2, page 0 lists world then hello |
| Scenario.HelloWorldPageOne | main.go:223-243 | with the counter at 2, page 1 has bound -8 and lists nothing |
| Scenario.HelloWorld | main.go:284-331 | two submissions to an empty table get pages 1 and 2; the front page renders world then hello, and page 1 renders nothing |

## Left out

- signUp and login (main.go:75-205) are not modelled. They consist of argon2 hashing and
  `rand.Int63` calls around SQL statements, and have no post-feed state. As written, login
  rejects when the hashes are equal (main.go:199) and derives with `argon2.Key` where signUp
  uses `argon2.IDKey` (main.go:101, 198).
- Routing, `serveFile`, `main`, logging and the response writer (main.go:333-356) are not
  modelled. A response is a value: a rendered feed, a redirect or an error with its status.
- Template rendering (main.go:275-281) is not modelled. Its failure is one of getIndex's
  faults, and `Rendered` carries the posts the template would receive.
- SQLite connection handling, the busy timeout and statement closing are left out. Each
  storage step that can fail is a fault parameter naming the failing step.
- The random post id (main.go:321) is a parameter. `created` is also a parameter, since the
  database assigns it.
- `atomic.Int64` is read and written one request at a time. Concurrent requests and their
  interleavings are not modelled.
- Go's `int` is taken to be 64 bits wide.
- Query strings and form bodies are modelled after decoding, as ordered key/value pairs. A
  form that `ParseForm` rejects is a single `Malformed` value.
- A successful submit requires only that the `message` key is present (main.go:298). An empty
  message is accepted and stored, unlike signUp and login, which reject empty fields
  (main.go:91-92, 146-147).
- `MAX(page)` is an aggregate and always yields one row, so the "did not find max page" branch
  (main.go:68-70) cannot be reached. Both branches leave the counter at 0 anyway.
  - A NULL scanned into an int64 is taken to leave 0.
  - The page column is taken to be non-NULL in every row.
- Posts.Newest: SQL leaves the order of rows with equal `created` open, and the evaluation
  here takes them in table order. What every conforming order shares is stated as
  `IsTopByCreated`.
- Strconv.Atoi: Go's fast path for short inputs is not modelled separately. It returns the
  same values as `ParseInt(s, 10, 64)`, which is what is modelled.
- Gitter.LargerPageNarrowsFeed and Gitter.FeedBoundIsExact hold only where `page * 10` and
  the subtraction do not overflow int64. Gitter.PageParameterWrapsAround shows that with
  overflow the bound can rise again.
- Gitter.Server.SubmitPost: it promises that the counter keeps covering the table, and that
  the new page is above the earlier ones, only while the counter is below the int64 maximum.
  At the maximum, `Add(1)` wraps to the minimum.
- static/script.js is not modelled beyond the page links it writes. It is browser code that
  formats dates and moves between pages.
