# Shopify order feed: a Dafny model of the dashboard backend

The backend of the Shopify dashboard exposes the order endpoint `/api/orders`,
besides a `/` page that returns a fixed string. The order endpoint checks that
the store credentials are configured. It then walks Shopify's cursor
pagination: it starts from a fixed first URL and follows the `next` target of
each page's `Link` header, which it reads with a small hand-written parser. It
flattens every order into a row with Ukrainian column names. It answers either
with all rows sorted newest first, or, on the first failure, with an error
status and no rows at all.

The model is written as pure functions over immutable data:

- `Optional`: the `Option` type; `GetOr` is Python's `dict.get(key, default)`.
- `PyStrings`: the parts of Python's `str` the backend uses. These are
  `split` on one character, with empty pieces kept, and `sep.join`. They also
  include `strip(chars)` and `strip()`, with Python's set of whitespace
  characters, and the code-point order of `<` on strings.
- `LinkHeader`: `parse_link_header`. It parses a header into a map from
  relation type to target. It also renders links back into a header, for the
  round trip.
- `Orders`: the raw Shopify order, the flattened row, and the flattening of one
  order and of a whole page.
- `DateSort`: `list.sort(key=date, reverse=True)`, modelled as a stable
  insertion sort on the date string.
- `OrderFeed`: the credentials check, the pagination loop, the error exits and
  `get_orders` itself.

The HTTP client is a parameter. The server's replies are given as a sequence,
where the k-th reply answers the k-th request. A reply is a response (status,
optional `Link` header, body) or a failure of the request itself. The loop reads
each reply into a page. A page is either its flattened rows with its header and
announced `next` target, or the status it fails with. Because the sequence is
finite, the loop always ends. If it asks for more pages than there are replies,
it ends as `Unanswered`. The backend has no such outcome; the model adds it only
so the loop is total.

## Model

| member | source | states |
|---|---|---|
| PyStrings.SplitPieces | backend/app.py:124-126 | Cutting a string at one character gives one piece more than there are separators, and no piece holds the separator. |
| PyStrings.SplitJoin | backend/app.py:70-71 | Joining pieces that are free of the separator, then cutting at the separator, gives the pieces back. |
| PyStrings.JoinSplit | backend/app.py:124-126 | Joining the pieces of a cut with the separator rebuilds the original string. |
| PyStrings.StripIsTrim | backend/app.py:129-134 | A stripped string is a slice of its input. The parts cut off at both ends consist only of stripped characters. The result neither starts nor ends with one. |
| PyStrings.LessTotal | backend/app.py:114 | Any two date strings are equal or ordered one way or the other. |
| PyStrings.LessTransitive | backend/app.py:114 | The string order on dates is transitive. |
| LinkHeader.FindRelMeaning | backend/app.py:130-135 | A part's relation type is the value of the first parameter segment that strips and splits on `=` into exactly `rel` and a value, with the quotes removed. It is absent when no segment is such a parameter. Later `rel` parameters are ignored. |
| LinkHeader.ParsePartAccepted | backend/app.py:126-137 | An accepted part has at least two `;`-segments. Its target is the first segment with `<`, `>` and spaces stripped from both ends. Its relation type is the non-empty value of the first `rel` parameter among the remaining segments. |
| LinkHeader.ParsePartRejected | backend/app.py:126-137 | A part is dropped exactly when it has fewer than two segments, or when its first `rel` parameter is missing or has an empty value. |
| LinkHeader.ParseKeyDeclared | backend/app.py:124-138 | Every key of the parsed map is a non-empty relation type that some comma-separated part declares. |
| LinkHeader.ParseDeclaredKey | backend/app.py:124-138 | Every relation type a part declares is a key of the parsed map. |
| LinkHeader.ParseLastWins | backend/app.py:124-138 | A key maps to the target of the last part that declares it. |
| LinkHeader.ParseWithoutParameters | backend/app.py:123-128 | A header without any `;` parses to the empty map. |
| LinkHeader.ParseEmptyHeader | backend/app.py:123-138 | The empty header parses to the empty map. |
| LinkHeader.ParseRender | backend/app.py:118-138 | Round trip: take links whose targets and relation types hold no `,` or `;`. The targets must not start or end with `<`, `>` or a space. The relation types must be non-empty, hold no `=` and not start or end with `"`. Render them as `<href>; rel="rel"` joined by `, `, then parse. The result maps each relation type to the target of its last link. |
| LinkHeader.ParseRenderDistinct | backend/app.py:118-138 | With distinct relation types, the parsed rendering maps each link's relation type to its own target and has no other key. |
| Orders.Flatten | backend/app.py:66-92 | A row is built exactly when the customer is not JSON null and every amount converts. Its production status is `Нове`, its net profit is empty, its date is `created_at` or `''`, its id is `id` or `''`, and its admin URL ends with that id. |
| Orders.FlattenAllMeaning | backend/app.py:66-93 | A page flattens exactly when each of its orders does. It then has one row per order, in page order. |
| Orders.ShippingTermsMeaning | backend/app.py:73 | The shipping cost's summands are the shipping-line prices in order, with a missing price read as 0. One non-numeric price fails the order. |
| Orders.NoItemsNoProducts | backend/app.py:68-71 | An order without line items has empty title and quantity columns. |
| Orders.ProductColumns | backend/app.py:68-71 | Assume titles and quantities hold no `;`. Cutting either column at `;` gives one piece per line item in line-item order, every piece after the first led by the space of `"; "`. |
| Orders.FullNameTrimmed | backend/app.py:80 | The customer name of every row built never starts or ends with whitespace. |
| Orders.FullNameBoth | backend/app.py:80 | When both names are present and trimmed, the customer name is first name, one space, last name. |
| Orders.FullNameOnePart | backend/app.py:80 | With one name empty, the customer name is the other name stripped. |
| DateSort.SortPermutes | backend/app.py:114 | The sort returns a permutation of its input. |
| DateSort.SortOrders | backend/app.py:114 | The sorted rows are newest first: no row's date string is less than that of a row after it. |
| DateSort.SortIsStable | backend/app.py:114 | For every date, the rows with that date keep their input order. |
| DateSort.SortIsTheStableSort | backend/app.py:114 | Any newest-first arrangement that keeps every date's rows in input order is the sort's result. |
| OrderFeed.PageFailures | backend/app.py:60-112 | A request failure gives 500. An HTTP error gives its own status, checked before the body is read. An unreadable body gives 500. An order that cannot be flattened gives 500. |
| OrderFeed.PageRows | backend/app.py:62-98 | A successful page came from a non-error response with a readable body. It holds one row per order and the `next` target of its own `Link` header. |
| OrderFeed.AnnouncedTarget | backend/app.py:95-98 | A `next` target exists exactly when the header is present, not empty, and one part declares `rel="next"`. It is the target of the last such part. |
| OrderFeed.CrawlRequests | backend/app.py:51-102 | From any loop state with a page still to fetch, the first request goes to the saved link or the first page. Each later request goes to the `next` target of the page before it, and that page succeeded with such a target. |
| OrderFeed.CrawlCollected | backend/app.py:51-102 | A loop that finishes stops right after the first page without a `next` target. Its rows are the rows it started with plus those of every page fetched, in page order. |
| OrderFeed.CrawlAborted | backend/app.py:55-112 | A loop that fails ends at a failing page, with that page's status. |
| OrderFeed.FirstRequest | backend/app.py:51-58 | The first request goes to `https://<store>.myshopify.com/admin/api/2025-04/orders.json?status=any&limit=250`. |
| OrderFeed.RequestsFollowNext | backend/app.py:55-98 | With credentials set, the first request goes to the first page. Each later request goes to the `next` target announced by the previous reply's `Link` header, and that reply succeeded. |
| OrderFeed.MissingCredentials | backend/app.py:48-49 | Without all three credentials the answer is error 500 and no request is made. |
| OrderFeed.ErrorsDiscardPages | backend/app.py:104-112 | An error answer carries the status of the last page fetched. That page failed, and every page before it succeeded with a `next` target. The status is 500 or an HTTP error status. No row is returned. |
| OrderFeed.SuccessStopsAtLastPage | backend/app.py:95-102 | On success, every page fetched before the last announced a `next` target, and the last page announced none. |
| OrderFeed.AnswerIsSortedHarvest | backend/app.py:51-116 | On success, the answer is the date sort of every row of every page fetched, taken in page order. |
| OrderFeed.AnswerIsNewestFirst | backend/app.py:114-116 | On success, the answer is a permutation of the rows of the pages fetched. It is newest first, and rows with equal dates keep the order the pages delivered them in. |

## Left out

- The React frontend (`frontend/src/App.js`) is not part of this model. It fetches on mount, renders a table and maps statuses to colours, which is presentation only.
- Flask routing (including the `/` page and its fixed greeting), CORS, the environment reads and the `print` logging are left out because they are framework and I/O plumbing. The three settings are a `Config` parameter.
- The HTTP client and JSON decoding are left out because they are I/O. A reply is given as a value, and a body is either the decoded `orders` array or undecodable.
- The error messages of the JSON error answers are not modelled. Only the status is kept.
- `float()` and the shipping-cost sum are floating point. A numeric field is carried through as its own text. A field `float()` rejects is `NonNumeric`. The shipping cost is kept as its list of summands, not their sum.
- The order `id` and a line item's `quantity` are held as their `str()` text, so integer formatting is not modelled.
- JSON `null`, and values of unexpected JSON types, are modelled only for `customer`. A null `customer` makes `.get` raise and fails the page with 500. A null title, or a non-list `line_items`, would also raise in the backend and is not modelled.
- Dates are compared as plain strings, as the backend does. No ISO 8601 parsing is modelled.
- `Unanswered` (more requests than replies) exists only in the model. It is not an outcome of the backend.
- OrderFeed.ErrorsDiscardPages: it does not restate which kind of failure produced the status. That follows from OrderFeed.PageFailures applied to the last reply fetched.
