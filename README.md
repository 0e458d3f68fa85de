# Ephemeral share resolution, modelled in Dafny

This project models the core of a small file- and text-sharing server. A
client deposits a piece of content and gets three ways to fetch it back:

- the share's durable id;
- a short code word, which lives in a cache for 180 seconds;
- for the client's own address, a recall of its latest share made in the
  last three minutes.

An address can also purge all of its shares. Every route ends by handing
either its result or the message it threw to one response handler. The
handler turns the pair `(err, docs)` into an HTTP status, a `success` flag
and a body, using JavaScript truthiness.

The model has five modules:

- `Handler` (`handler.dfy`): JavaScript values (`JsValue`), truthiness and the
  handler's three-way decision, as a pure function returning the
  `(status, success, response)` triple.
- `ObjectKey` (`object_key.dfy`): the object key derived from an uploaded file
  name. It models `split('.')`, the last piece taken as the extension,
  `replace(ext, '')` removing the first occurrence only, and the template
  `${base}-${uuid}.${ext}`, quirks included.
- `ShareStore` (`share_store.dfy`): the three engines as in-memory values:
  - the share table is a sequence of rows with increasing ids, together with
    the queries the routes issue (`findFirst` by id, `findFirst` by address
    and time window ordered by timestamp, `deleteMany` by address);
  - the code cache is a map from code to `(id, expiry)`;
  - the URL signer gives an opaque `Signed(operation, key, expiry)` token.
- `Routes` (`routes.dfy`): the class `ShareService`. Its fields are the table,
  the cache and the next id, and the five routes are its methods. The module
  also holds lemmas that relate several routes: create then look up by code,
  expiry, last write wins on a reused code, upload then download, purge then
  look up a stale code, purging twice, and recall after create.
- `Wrappers` (`wrappers.dfy`): `Option`.

Times are integers in milliseconds. The request address, the random code
word, the unique suffix and the current time are parameters of each route.

Behaviour of the code worth knowing before reading the model:

- The object key keeps the dot before the extension in the base, so
  `report.pdf` becomes `report.-<suffix>.pdf`. The code removes the first
  occurrence of the extension text, not the suffix it was taken from, so
  `pdf.pdf` becomes `.pdf-<suffix>.pdf`. `ObjectKey.ReportPdfKey` and
  `ObjectKey.FirstOccurrenceRemoved` prove both.
- Lookup by id always signs a download URL for `content`, whatever the
  share's content type is, so a TEXT share's text is used as an object key.
- "Not found" and a code whose share is gone are both thrown strings, and
  every thrown string becomes status 500. No route ever answers 400.

## Model

| member | source | states |
|---|---|---|
| `Handler.Handle` | middlewares/handler.js:1-20 | The status is 200, 400 or 500, and `success` holds exactly when it is 200. It is 500 exactly when `err` is truthy, and then the body is `err`. 400 carries a null body. 200 carries `docs`, and a falsy `err` with `docs` equal to 0 or truthy gives 200. |
| `Handler.Truthy` | middlewares/handler.js:2 | A value is falsy exactly when it is null, undefined, false, 0 or the empty string. |
| `Handler.BadRequestExactly` | middlewares/handler.js:8-12 | The answer is 400 exactly when `err` is falsy and `docs` is null, undefined, false or the empty string. The number 0 is let through. |
| `Handler.ThrownMessageIsServerError` | middlewares/handler.js:2-6 | A non-empty thrown message always yields `(500, false, message)`. |
| `ObjectKey.Split` | routes/root.js:109 | A split always yields at least one piece, so the last piece used at line 110 exists. |
| `ObjectKey.JoinSplit` | routes/root.js:109 | Joining the pieces of `split(sep)` with `sep` gives the original name back. |
| `ObjectKey.SplitPiecesHaveNoSeparator` | routes/root.js:109 | No piece of a split contains the separator. |
| `ObjectKey.LastSegment` | routes/root.js:109-110 | The extension holds no dot and is a suffix of the name. |
| `ObjectKey.LastSegmentIsSuffix` | routes/root.js:109-110 | The extension is the whole name when there is no dot, and a dot precedes it otherwise. |
| `ObjectKey.ExtensionIsUnique` | routes/root.js:110 | Any dot-free suffix preceded by a dot is the extension. |
| `ObjectKey.IndexOf` | routes/root.js:111 | The result is the first index at which the pattern occurs, or none when it occurs nowhere. |
| `ObjectKey.RemoveFirst` | routes/root.js:111 | With no occurrence of the pattern the string is returned unchanged. Otherwise the result is the string with the earliest occurrence cut out, so it is shorter by the pattern's length. |
| `ObjectKey.RemoveFirstCutsEarliest` | routes/root.js:111 | When the pattern occurs at index i and nowhere before, the replace cuts out exactly the text at i, whatever occurrences follow. |
| `ObjectKey.DeriveObjectKey` | routes/root.js:109-113 | The key is two characters longer than the name and the suffix together, and ends with "." plus the extension. |
| `ObjectKey.ExtensionIsFound` | routes/root.js:111 | The extension always occurs in the name. The replace removes its first occurrence, which may come before the suffix. |
| `ObjectKey.DerivedKeyShape` | routes/root.js:109-113 | The key ends with "." plus the extension and holds "-" plus the suffix. Its length is the name's length plus the suffix's length plus 2, so it never equals the name. |
| `ObjectKey.KeyCutsEarliest` | routes/root.js:109-113 | The key is the name with the extension's earliest occurrence cut out, followed by "-", the suffix, "." and the extension. |
| `ObjectKey.KeyKeepsTrailingDot` | routes/root.js:111-113 | When the extension first occurs as the suffix, the key is the name minus its extension (ending in a dot), then "-", the suffix, "." and the extension. |
| `ObjectKey.KeyOfDotlessName` | routes/root.js:109-113 | A name with no dot gives "-" + suffix + "." + name. |
| `ObjectKey.ReportPdfKey` | routes/root.js:109-113 | "report.pdf" gives "report.-" + suffix + ".pdf". |
| `ObjectKey.FirstOccurrenceRemoved` | routes/root.js:109-113 | "pdf.pdf" gives ".pdf-" + suffix + ".pdf". |
| `ShareStore.SignedUrlDeterminesKey` | routes/root.js:115-119 | Two upload URLs are equal exactly when their keys are, and so are two download URLs: each URL names one object. |
| `ShareStore.DownloadIsNotUpload` | routes/root.js:88-91 | No download token equals an upload token. |
| `ShareStore.CacheSetThenGet` | routes/root.js:129-131 | After storing an id under a code at time t with a 180-second expiry, getting that code yields the id before t + 180 s and nothing from then on. Every other code reads as before. |
| `ShareStore.FindById` | routes/root.js:63-65 | The row found is in the table and carries the id. Nothing found means no row carries it. |
| `ShareStore.FindByIdUnique` | routes/root.js:81-83 | In a well-formed table, the row found for an id is the one row carrying it. |
| `ShareStore.AppendFresh` | routes/root.js:120-126 | Appending a row with the next id keeps the table well formed and makes the row findable. Every other id finds what it found before. |
| `ShareStore.LatestWithin` | routes/root.js:36-43 | The result is a row of the address strictly after the cutoff, and no such row has a later timestamp. There is no result exactly when no such row exists. |
| `ShareStore.Remaining` | routes/root.js:159-163 | The purge never grows the table, and no row of the address survives it. |
| `ShareStore.Matching` | routes/root.js:159-164 | The count is at most the table's size, and it is 0 exactly when the address has no row. |
| `ShareStore.RemainingExactly` | routes/root.js:159-163 | A row survives the purge exactly when it was in the table and belongs to another address. |
| `ShareStore.RemovedCount` | routes/root.js:159-163 | The number of rows removed equals the number of rows of the address. |
| `ShareStore.PurgeIdempotent` | routes/root.js:159-163 | After a purge no row of the address is left, and purging again changes nothing. |
| `ShareStore.RemainingWellFormed` | routes/root.js:159-163 | The purge keeps ids unique and increasing. |
| `Routes.Reply` | routes/root.js:47-49 | A result always gives `(200, true, result)`. A thrown route message always gives `(500, false, message)`. Never 400. |
| `Routes.NewShare` | routes/root.js:107-140 | The new row carries the given id, the address and the creation time. For 'FILE' it is a FILE row whose content is a key longer than the file name, so never the name itself. For any other type it is a TEXT row holding the submitted content. |
| `Routes.CodeLookup` | routes/root.js:54-69 | "Not found" is thrown exactly when the code is missing or expired. "Not a valid share code" is thrown exactly when the code is live but no row carries its id. A result is a row of the table carrying the code's id. |
| `Routes.IdLookup` | routes/root.js:78-94 | The route throws exactly when no row carries the id, and then throws "Not a valid share code". A result is a `getObject` URL with default expiry for the content of a row carrying the id. |
| `Routes.RecallLookup` | routes/root.js:32-47 | The route throws "No share found" exactly when no row of the address is stamped after `now` - 180000. A result is such a row, and no such row is later. |
| `Routes.ShareService.constructor` | routes/root.js:9-11 | Starts with an empty table, an empty cache and next id 0. |
| `Routes.ShareService.InsertShare` | routes/root.js:120-126 | Appends the given row, which carries the next id, and advances the id. The cache is untouched and the table stays well formed. |
| `Routes.ShareService.SetCode` | routes/root.js:129-131 | Stores the id under the code with expiry `now` + 180 s, replacing any earlier entry. The table is untouched. |
| `Routes.ShareService.Create` | routes/root.js:102-153 | Appends exactly one row, from the address, stamped `now`, with the next id. Earlier rows are unchanged. Any type other than 'FILE' stores the text as TEXT. 'FILE' stores the derived key, and the reply's upload token signs that same key. The code then maps to the new id until `now` + 180 s, overwriting any earlier entry. The reply is 200. |
| `Routes.ShareService.LookupByCode` | routes/root.js:54-75 | A missing or expired code gives 500 "Not found". A live code whose row is gone gives 500 "Not a valid share code". Otherwise the reply is 200 with the row whose id the code holds: a live code whose row exists always gives 200. |
| `Routes.ShareService.LookupById` | routes/root.js:78-99 | A missing id gives 500 "Not a valid share code", and only a missing id does. Otherwise the reply is 200 with a `getObject` token for the row's content, whatever its content type. |
| `Routes.ShareService.RecallByIp` | routes/root.js:32-52 | 200 exactly when a row of the address is stamped strictly after `now` - 180000. The reply is then a latest such row; otherwise it is 500 "No share found". |
| `Routes.ShareService.PurgeByIp` | routes/root.js:156-169 | Removes exactly the rows of the address and keeps the rest in order. The cache and the next id are untouched. The reply is 200 with the count removed. |
| `Routes.CreateThenLookupByCode` | routes/root.js:120-145 | After a create, its code resolves to the new row exactly while the time is before creation + 180 s, and gives "Not found" after. The row's content is the text or the derived key. |
| `Routes.SameCodeLastWriteWins` | routes/root.js:105-145 | Two creates drawing the same code: the code resolves to the second row, and the first stays reachable by id. |
| `Routes.FileUploadThenDownload` | routes/root.js:107-126 | A FILE share stores the derived key, which differs from the file name. Lookup by id signs a download for that same key, and the download token differs from the upload token. |
| `Routes.PurgedShareCodeIsInvalid` | routes/root.js:63-69 | A live code whose row was purged gives "Not a valid share code". |
| `Routes.SecondPurgeRemovesNothing` | routes/root.js:159-164 | A second purge of the same address counts 0 and still answers 200. |
| `Routes.RecallAfterCreate` | routes/root.js:36-46 | With time not going backwards, recall after a create finds a row stamped at creation while the three minutes run. After that it gives "No share found", although the row is still in the table. |

## Left out

- HTTP routing, parsing of the query, params and body, and JSON output are not modelled. Each route takes its arguments directly and returns the `(status, success, response)` triple.
- Client address extraction from `x-forwarded-for` or the socket is not modelled. The address is a string parameter.
- `helpers/getrandomword.js` reads a word list from disk and picks a line at random. The code word is an arbitrary string parameter.
- `uuidv4()` and `Date.now()` are not modelled. The suffix and the current time in milliseconds are parameters.
- The real database, cache and storage clients, their connections and SigV4 signing are not modelled. They are in-memory values and an opaque token.
- Engine failures are not modelled: a database, cache or signer that throws. In the model the engines always succeed, so the `catch` path is reached only by the routes' own throws.
- The `throw e` after each `handler(res, e, null)` and the `console.log` of the address are not modelled; they have no effect on the modelled state or reply.
- Concurrent requests are not modelled. Each route is one atomic step.
- Request fields that are not strings are not modelled. For example, a missing `fileName` makes `split` throw a TypeError. `contentType`, `content` and `fileName` are strings, and a non-string `contentType` behaves like any string other than 'FILE'.
- Share ids are naturals from a counter. The database's own id format and the string id in the route path are not modelled.
- The row's timestamp is the `now` given to the route. The database's default clock is not modelled.
- The cache entry is treated as live while `now < expiry`. The cache's behaviour at exactly the expiry millisecond is not modelled.
- The download URL's expiry is the signer's default, which is not modelled.
- NaN and -0 are not modelled in truthiness. Numbers are integers.
- Strings are sequences of Unicode characters, not UTF-16 code units. A lone surrogate in a name or code cannot be represented, and lengths count characters.
- `Routes.ShareService.RecallByIp`: the contract does not say which row is returned when several rows tie for the latest timestamp. The database's tie order is not visible.
