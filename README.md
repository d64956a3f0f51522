# Cloud3 uploader: verified model of its naming, progress and ledger logic

Cloud3 is a Deno HTTP server (`main.ts`). It relays files into an S3-compatible
bucket (Cloudflare R2) with a multipart upload. A file can arrive as a form
upload or be fetched from a remote URL. The server keeps a history of
finished uploads in Deno KV, and it hands out 3-hour signed download links.

This project models the deterministic layer under that glue, in Dafny:

- **Object keys** (`objectkey.dfy`, module `ObjectKey`). `sanitize` is modelled
  as its three steps:
  - `replace(/[^\w\-. ]/g, "")`;
  - `replace(/\s+/g, "-")`, with the ECMAScript whitespace set;
  - `trim()`.

  The same module has `mimeToExt` (the text before the first `;`, looked up in
  the 8-entry table, `bin` otherwise) and the key
  `${sanitize(n) || token}.${ext}`. It also builds the app link and the direct
  link, and reads the key back out of a `/download/` path with `substring(10)`.
- **Progress** (`progress.dfy`, module `Progress`). `Math.round(loaded / total * 100)`
  is computed in exact integers as round-half-up, `(200*loaded + total) / (2*total)`.
  A value is emitted only for a non-zero total.
- **Age display** (`timeago.dfy`, module `TimeAgo`, with `decimal.dfy`, module
  `Decimal`, for `String(n)`). `formatTimeAgo` is a function of the elapsed
  milliseconds: floor to seconds, then strict `>` thresholds.
- **Upload ledger** (`ledger.dfy`, module `UploadLedger`). The KV entries live
  under `["uploads", MAX_DATE_MS - createdAt, id]`. They are modelled as a
  class `Ledger` whose field `entries` is a sequence of records. It is kept
  strictly sorted by key:
  - the inverted timestamp first;
  - then the id, in code-point order.

  `Put` models `kv.set` (a record with the same key is replaced). `Delete`
  models `kv.delete` by exact key. `List(limit)` models the bounded ascending
  `kv.list`.
- **Routes** (`routes.dfy`, module `Routes`). These are the local upload, the remote
  upload (its stream of NDJSON lines), the history page's loop and the
  delete API. The two upload routes take the upload's outcome (`Done` or
  `Failed(message)`), the clock and the fresh tokens as parameters, and write
  a record only after a `Done` outcome. The history page takes only the
  clock, and the delete API only the key. Every route works on any ledger
  that satisfies `Valid()`, that is on whatever uploads the store already
  holds.

Where the code and a natural reading of it differ, the model follows the code:

- A missing (`null`) or empty name gives the base `"file"`. Only a non-empty
  name with no character of `[\w\-. ]` (such as `"!!!"`) falls back to the fresh
  token.
- The final `trim()` never changes anything. After the first step the only
  whitespace left is the space, and the second step already turned every run
  of spaces into one hyphen. So leading and trailing spaces become leading and
  trailing hyphens (`"  a  b "` gives `"-a-b-"`).
- Two uploads finished in the same millisecond share the timestamp part of
  their key and are ordered by id. The listing is therefore newest first only
  in the non-strict sense.
- The progress value is not clamped. A body longer than its Content-Length
  gives values above 100 (see `Progress.PercentCanExceed100`).

## Model

| member | source | states |
|---|---|---|
| `ObjectKey.StripDisallowed` | main.ts:39 | the first replace leaves only characters of `[\w\-. ]` and never lengthens the name |
| `ObjectKey.CollapseWhitespace` | main.ts:39 | the second replace never lengthens the name |
| `ObjectKey.StripOne` | main.ts:39 | the first replace keeps one character exactly when it is in `[\w\-. ]` |
| `ObjectKey.StripAppend` | main.ts:39 | the first replace filters a concatenation piece by piece, so every kept character, hyphen and space included, survives in order |
| `ObjectKey.CollapseAfterPlain` | main.ts:39 | characters that are not whitespace pass the second replace unchanged and in place |
| `ObjectKey.CollapseRun` | main.ts:39 | a maximal run of whitespace becomes exactly one hyphen; with `CollapseAfterPlain` this fixes the second replace on every input |
| `ObjectKey.CollapseSpec` | main.ts:39 | the second replace leaves no whitespace, and its result is empty only for an empty input |
| `ObjectKey.CollapsedIsSafe` | main.ts:39 | after the first replace, the second leaves only `[A-Za-z0-9_.-]` |
| `ObjectKey.Sanitize` | main.ts:38-40 | the result of `sanitize` uses only `[A-Za-z0-9_.-]` and is no longer than a non-empty input |
| `ObjectKey.TrimIsNoOp` | main.ts:39 | the trailing `trim()` never changes the string the two replaces produced |
| `ObjectKey.SanitizeFixesSafeNames` | main.ts:38-40 | a non-empty name made only of `[A-Za-z0-9_.-]` is returned unchanged |
| `ObjectKey.SanitizeIdempotent` | main.ts:38-40 | sanitizing a non-empty sanitized name gives it back |
| `ObjectKey.SanitizeEmptyIff` | main.ts:38-40 | a non-empty name sanitizes to "" exactly when none of its characters is in `[\w\-. ]` |
| `ObjectKey.SanitizeKeepsWordsAndDots` | main.ts:39 | every letter, digit, underscore and dot of the name survives, in order, and none is added |
| `ObjectKey.SanitizeJoinsWords` | main.ts:39 | two safe words with one or more spaces between them sanitize to the words joined by one hyphen ("a  b" gives "a-b") |
| `ObjectKey.SanitizeKeepsOuterHyphens` | main.ts:39 | a name starting or ending with a space sanitizes to one starting or ending with a hyphen |
| `ObjectKey.SanitizeOfMissing` | main.ts:39 | a null or empty name gives "file" |
| `ObjectKey.MediaType` | main.ts:30 | `split(';')[0]` is the prefix before the first semicolon, or the whole string when there is none |
| `ObjectKey.MimeToExt` | main.ts:28-31 | the extension is always one of mp4, webm, mkv, mov, avi, jpg, png, gif, bin |
| `ObjectKey.ExtensionShape` | main.ts:28-31 | every extension has at least three characters, all of `[A-Za-z0-9_.-]`, and no dot |
| `ObjectKey.MimeToExtIgnoresParameters` | main.ts:30 | whatever follows the first `;` never changes the extension |
| `ObjectKey.MimeToExtBinIff` | main.ts:29-30 | the result is "bin" exactly when the media type is not in the table |
| `ObjectKey.MimeToExtTable` | main.ts:29 | each table entry maps to its extension, also with parameters after a `;` |
| `ObjectKey.MimeToExtOfEmpty` | main.ts:197 | the empty type (a missing Content-Type) gives "bin" |
| `ObjectKey.MediaTypeStopsAtSemicolon` | main.ts:30 | the media type of `a;b` is `a` when `a` has no semicolon |
| `ObjectKey.BaseName` | main.ts:160 | `sanitize(n)`, or the token when that is empty, is never empty when the token is not |
| `ObjectKey.BaseNameCases` | main.ts:160 | the base is "file" for a missing or empty name, the token exactly when a non-empty name has no allowed character, and the sanitized name otherwise |
| `ObjectKey.FileName` | main.ts:197 | the object key has at least five characters |
| `ObjectKey.FileNameSplits` | main.ts:160 | splitting the key at its last dot gives back the base and the extension |
| `ObjectKey.FileNameIsSafe` | main.ts:169 | with a token of safe characters, the key uses only `[A-Za-z0-9_.-]` (no quote for the Content-Disposition header) and is never a `.` or `..` path segment |
| `ObjectKey.FileNameOfInvalidName` | main.ts:160 | a non-empty name without allowed characters gets `token.ext` |
| `ObjectKey.FileNameOfMissingName` | main.ts:197 | a missing or empty name gets `file.ext` |
| `ObjectKey.DownloadKey` | main.ts:229-230 | the route matches exactly the paths starting with "/download/", and the key is what follows that prefix |
| `ObjectKey.DownloadKeyRoundTrip` | main.ts:178 | the path of an app link resolves back to the key it was built from |
| `ObjectKey.DownloadKeyInjective` | main.ts:229-230 | two download paths with the same key are the same path |
| `Decimal.NatToString` | main.ts:36 | a number renders as digits only, with a leading zero only for zero |
| `Decimal.IntToString` | main.ts:36 | a negative number renders as a minus sign followed by digits |
| `Decimal.IntToStringRoundTrip` | main.ts:36 | reading the rendered number back gives the number |
| `Decimal.IntToStringInjective` | main.ts:36 | two numbers never render the same |
| `TimeAgo.ElapsedSeconds` | main.ts:33 | the seconds are the floor of the milliseconds divided by 1000 |
| `TimeAgo.ClassifyPicksLargestUnit` | main.ts:32-37 | the unit is the largest whose threshold is strictly exceeded, else seconds (60 or less); a non-seconds count is at least 1; the count is the whole number of units |
| `TimeAgo.SecondsToMinutesBoundary` | main.ts:36 | 60 s shows "60s ago" and 61 s shows "1m ago" |
| `TimeAgo.ThresholdsAreStrict` | main.ts:34-36 | exactly an hour, a day or a year shows as 60 minutes, 24 hours or 12 months |
| `TimeAgo.NegativeElapsed` | main.ts:36 | a negative elapsed time shows negative seconds |
| `TimeAgo.FormatTimeAgoShowsCount` | main.ts:34-36 | the text is the count in decimal, which reads back, followed by the unit's suffix |
| `Progress.PercentRoundsHalfUp` | main.ts:213 | the integer formula gives the integer nearest to `100*loaded/total`, halves rounding up |
| `Progress.RoundsHalfUpUnique` | main.ts:213 | at most one integer is that nearest value |
| `Progress.Progress` | main.ts:213 | a value is produced exactly when the total is non-zero, and it is the rounded percentage |
| `Progress.PercentBounds` | main.ts:213 | for `loaded <= total` the value lies in [0, 100] |
| `Progress.PercentEnds` | main.ts:213 | nothing loaded gives 0; everything loaded gives exactly 100 |
| `Progress.PercentMonotone` | main.ts:213 | more bytes loaded never gives a smaller value |
| `Progress.PercentCanExceed100` | main.ts:213 | 3 bytes against a Content-Length of 2 gives 150 |
| `Progress.ProgressValues` | main.ts:213 | one value per progress event when the total is non-zero, none when it is zero |
| `Progress.ProgressValuesAt` | main.ts:213 | the i-th streamed value is the percentage of the i-th event |
| `Progress.ProgressValuesAreMonotone` | main.ts:213 | non-decreasing reports within the total stream non-decreasing values in [0, 100], ending at 100 when the last report covers the total |
| `UploadLedger.KeyParts` | main.ts:181 | every ledger key is `["uploads", inverted, id]` |
| `UploadLedger.KeyPartsInjective` | main.ts:181 | different ledger keys have different KV keys |
| `UploadLedger.KeyLessIsStrictTotalOrder` | main.ts:250 | the key order is irreflexive, transitive and total |
| `UploadLedger.KeyLessMeansNotOlder` | main.ts:181 | a key that sorts first belongs to a record created no later; at equal times the smaller id sorts first |
| `UploadLedger.InsertSpec` | main.ts:181 | a write keeps key order, stores the record and keeps every record with another key |
| `UploadLedger.RemoveKeySpec` | main.ts:274 | a delete keeps key order, removes the record under the key and keeps all others |
| `UploadLedger.RemoveAbsentKey` | main.ts:274 | deleting a key that is not stored changes nothing |
| `UploadLedger.RemoveKeyIdempotent` | main.ts:274 | deleting twice is deleting once |
| `UploadLedger.RemoveKeyRemovesAtMostOne` | main.ts:274 | a delete removes at most one record |
| `UploadLedger.NewerStoredFirst` | main.ts:181 | of two stored records, the one created later comes first |
| `UploadLedger.DeleteUndoesPut` | main.ts:274 | deleting the key of a freshly written record restores the ledger |
| `UploadLedger.NewestUploadListsFirst` | main.ts:219 | an upload finished after all stored ones is stored at the front |
| `UploadLedger.Ledger.constructor` | main.ts:19 | a freshly created database is empty and in order (`Deno.openKv()` on an existing store reopens its uploads; the routes accept any `Valid()` ledger for that case) |
| `UploadLedger.Ledger.Put` | main.ts:181 | the entries become the old ones with the record written, still in key order |
| `UploadLedger.Ledger.Delete` | main.ts:274 | the entries become the old ones without the given key, still in key order |
| `UploadLedger.Ledger.List` | main.ts:250 | lists the first `min(limit, size)` entries with their keys, in key order; no unlisted record is newer than a listed one |
| `Routes.NewRecord` | main.ts:180-181 | the record's key is `[MAX_DATE_MS - now, id]` and its createdAt is `now` |
| `Routes.FinishUpload` | main.ts:176-183 | a done upload writes exactly one record and returns the links; a failed one leaves the ledger unchanged and passes the message on |
| `Routes.UploadFile` | main.ts:153-184 | a missing file gives 400 "No file" and a failed upload gives 500, both leaving the ledger unchanged; a done upload gives the links and writes the record under the key built from the file's name and type |
| `Routes.ProgressNotes` | main.ts:213 | one progress line per value, in order |
| `Routes.UploadRemote` | main.ts:187-226 | a rejected fetch or a non-ok response gives one error line and no record; otherwise the progress lines, then either the links and one written record, or the error and an unchanged ledger |
| `Routes.History` | main.ts:249-268 | at most 50 rows, one per entry in key order, each with the name, age and links of its record, newest first |
| `Routes.DeleteHistory` | main.ts:273-275 | deletes exactly the given key and replies ok, also for an absent key |

## Left out

- The multipart upload (`@aws-sdk/lib-storage` `Upload`, main.ts:162-176 and 199-214) is left out. Part splitting, the 30 MiB part size, the 4 concurrent parts, the object's Content-Disposition and Cache-Control headers and the finalize call all happen in a foreign library with concurrent internals. Only whether `done()` resolved or rejected is modelled, as a parameter.
- Signed download links (`getSignedUrl`, `GetObjectCommand`, main.ts:233-244) are foreign signing code. Only the 3-hour expiry appears, as the constant `Routes.LinkExpirySeconds`.
- Basic authentication (main.ts:47-60) is left out: `atob`, `TextDecoder` and `timingSafeEqual` are foreign byte-level calls.
- Environment checks, `Deno.openKv`, `Deno.serve` and routing by method and path are I/O plumbing. So are form and JSON request parsing, the NDJSON encoding of the stream and `fetch` itself. The fetch result is a parameter (`Routes.FetchReply`).
- The HTML, CSS and client-side JavaScript are UI. A history row is modelled as the data it shows (`Routes.HistoryRow`).
- Progress.Progress: floating point is not modelled. The value is exact round-half-up integer arithmetic rather than `Math.round` on a double. Content-Length is taken as a natural number, so `parseInt` giving NaN or a negative number is not modelled.
- ObjectKey.MimeToExt: the table is a plain finite map. Keys such as `"toString"`, which hit `Object.prototype` in JavaScript, are not modelled.
- `crypto.randomUUID()` and `Date.now()` are parameters (`token`, `id`, `now`). The key's `Date.now()` and `createdAt`'s `new Date()` are taken as the same instant. The history page's rows are all aged at one instant `now`, whereas `formatTimeAgo` reads `Date.now()` again for each row.
- Failures of `kv.set` itself are not modelled: a write is assumed to succeed. The source would then answer 500 (local upload) or push an error line (remote upload) after the object was stored.
- Routes.UploadRemote: the JSON `name` is modelled as an optional string. A non-string `name` is not modelled: a truthy one such as `5` makes `n.replace` throw after the fetch has started (main.ts:39, 221), and a falsy one such as `0` gives `"file"`.
- Decoding the delete request's JSON key is left out. The key arrives as its parts (`UploadLedger.KeyPart`). A malformed key that makes `kv.delete` throw is not modelled.
- URL parsing is not modelled. `ObjectKey.DownloadKey` works on the pathname. `ObjectKey.FileNameIsSafe` shows that a key only has characters that the URL parser leaves as they are.
- Key order is modelled only for keys of the ledger's own shape. Deno KV's ordering across part types is not needed, since every entry under `"uploads"` has that shape.
- Decimal.IntToString: JavaScript's exponent notation for numbers of 1e21 and above is not modelled. Elapsed seconds never get that large.
- A form field `file` that holds text rather than a file (which makes `file.type` undefined) is not modelled. The field is either absent or a file with a name and a type.
- Routes.UploadRemote: the progress events are taken to arrive before `done()` settles, in the order given.
