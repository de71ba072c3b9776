# Pixel canvas rate limiting, modelled in Dafny

This project models the request logic of a small collaborative pixel-canvas
server (`server.js`). Clients load the canvas, which is up to 1000 stored pixels
plus the number of seconds they must still wait. They save batches of 1 to 10
pixels, at most one batch per five minutes per hashed client address, as long
as the caller's own rows survive (see below) and no two of the caller's
requests interleave.

The data service that holds the `pixels` table is abstracted as an immutable
map from row id to `Pixel(x, y, color, ip, createdAt)`. Times are integer
milliseconds. Each handler becomes a pure function or a short method of
(table, caller's hashed address, current time, request):

- `Decimal` prints integers the way a template literal prints an
  integer-valued number of magnitude at most 2^53, and parses them back.
- `PixelIds` defines the row id `x{x}_y{y}` and its parser. It proves the
  round trip, and from it that distinct coordinates get distinct ids.
- `Cooldown` defines the strict five-minute window, the ceiling division and
  the wait in whole seconds.
- `PixelStore` defines the table, the batch insert-or-replace (later rows of a
  batch win) and the well-formedness invariant. The invariant is that each row
  sits under the id of its own coordinates, so there is one row per coordinate.
- `SaveHandler` models the save endpoint. The cooldown check comes first (429),
  then the batch check (400), then stamping and the upsert. Last comes the
  check of the reported change count (500 on mismatch, 200 otherwise).
- `LoadHandler` models the load endpoint: the capped listing, the caller's
  most recent pixel and the wait time. Its contract ties the two endpoints
  together: the reported wait is positive exactly when a save at the same
  moment would get 429.
- `Scenarios` covers sequences of requests. An accepted save is followed by
  five minutes of 429. A resave at the same coordinates after five minutes
  succeeds and replaces the colour.

The five-minute rule rests only on the caller's own rows. A pixel another
caller places at the same coordinates replaces the row, including its `ip`.
After that, the first caller's timeout is gone (`Scenarios.OverwriteEndsTimeout`).
So the rule "no accepted write within five minutes of one's last accepted
write" holds only while the caller's rows survive. This is how the code
behaves, and the model follows it.

The code checks cooldown before the batch, so a caller in timeout who sends
an invalid batch gets 429, not 400. The model follows that order. The load
handler finds the caller's most recent row and tests it against the window.
The save handler instead asks whether any caller row falls inside the window.
`LoadHandler.LoadPixels` proves the two tests agree.

## Model

| member | source | states |
|---|---|---|
| Decimal.NatRoundTrip | server.js:109 | reading back the decimal digits printed for a natural number gives that number |
| Decimal.IntRoundTrip | server.js:109 | reading back the printed text of any integer, minus sign included, gives the integer |
| PixelIds.PixelId | server.js:109 | the id built from (x, y) parses back to (x, y) |
| PixelIds.ParseFromText | server.js:109 | scanning `{x}_y{y}` from any position inside the x text stops at the underscore after it and reads x and y back |
| PixelIds.PixelIdInjective | server.js:109 | two coordinate pairs get the same id if and only if they are equal |
| Cooldown.CeilDiv | server.js:70 | the result is the ceiling of the quotient: the least q with n <= q*d |
| Cooldown.WaitTime | server.js:65-72 | the wait is never negative; it is positive exactly when a latest pixel exists and is strictly inside the five-minute window; it is then the remaining milliseconds rounded up to whole seconds, and at most 300 when that pixel is not in the future |
| PixelStore.Upsert | server.js:112 | insert-or-replace leaves the table with exactly its old ids plus the ids the batch names |
| PixelStore.UpsertContents | server.js:112 | every id the batch names holds the data of the batch's last row with that id; every other row is unchanged |
| PixelStore.UpsertPreservesWellFormed | server.js:109-112 | writing rows whose ids come from their coordinates keeps one row per id, each under its own coordinates' id |
| SaveHandler.InCooldown | server.js:88-92 | the timeout query holds (some row of the caller lies strictly inside the window) exactly when the caller's newest row lies inside it |
| SaveHandler.NewestInKeys | server.js:59-63 | among any set of ids holding a row of the caller there is one whose row no other such row is newer than |
| SaveHandler.Save | server.js:82-119 | 429 exactly when some row of the caller lies strictly inside the window, whatever the batch; otherwise 400 exactly when the body is not an array of 1 to 10 pixels; otherwise 500 exactly when the reported change count differs from the batch length, else 200; on 429 and 400 the table is unchanged |
| SaveHandler.StampedIds | server.js:106-110 | stamped rows carry the ids of their own coordinates, and their ids are exactly the ids of the batch's coordinates |
| SaveHandler.StampedLast | server.js:106-110 | the last pixel of the batch at some coordinates becomes the last stamped row with that id |
| SaveHandler.SaveWritesBatch | server.js:105-112 | after an accepted write each submitted coordinate holds the last pixel sent for it, with its x, y and colour, the caller's hash and the save time; rows at other ids are unchanged; the table stays one row per coordinate |
| LoadHandler.MostRecent | server.js:59-63 | returns a row of the caller that no other row of the caller is newer than, and nothing only when the caller has no row |
| LoadHandler.ListPixels | server.js:55 | lists min(table size, 1000) distinct rows, each with the data stored under its id |
| LoadHandler.LoadPixels | server.js:51-74 | lists min(table size, 1000) distinct stored rows; the wait is non-negative and positive exactly when a save at the same moment would be refused with 429; when positive it is the remaining time of the caller's newest row rounded up to whole seconds; it is at most 300 s when no caller row is in the future |
| Scenarios.TimeoutFollowsWrite | server.js:85-112 | after a written batch the same caller gets 429 for any request during the next five minutes if the table is not written in between |
| Scenarios.CooldownEndsAfterWrite | server.js:85-118 | after any save that wrote its batch at t, the caller is out of timeout at t + 5 min or later, and a valid batch whose reported count matches is then accepted with 200 |
| Scenarios.WrittenRowsExpire | server.js:88-92 | a table written by the caller at t, over caller rows all outside the window at t, holds no caller row inside the window from t + 5 min on |
| Scenarios.LastAtSameCoordinate | server.js:106-112 | every pixel of a batch has a last pixel at the same coordinates, at or after it, which is the one the write keeps |
| Scenarios.ResaveAfterCooldown | server.js:85-118 | a one-pixel save reported as one change and accepted at t is followed, at t + 5 min or later, by an accepted one-pixel resave at the same coordinates; the coordinate then holds the new colour |
| Scenarios.SinglePixelSave | server.js:85-118 | a one-pixel save by a caller not in timeout, reported as one change, returns 200 and only replaces the row at that pixel's coordinates |
| Scenarios.OverwriteEndsTimeout | server.js:88-112 | when neither caller is in timeout, caller a's save, caller b's save at the same coordinates and a's next save one millisecond later are all accepted: b's write replaced the row that held a in timeout |

## Left out

- Hashing the client address (server.js:46-48) is left out: handlers take the hashed address as an input. SHA-256 is not modelled.
- Choosing between the `x-forwarded-for` header and the socket address (server.js:58, 84) is left out, as are routing, static files, JSON parsing and listening (server.js:6-17): this is HTTP plumbing.
- The schema check run at start-up (server.js:24-43) is left out: it only logs.
- Data service calls are modelled as operations on the map. The change count the service reports for the upsert is an input of `SaveHandler.Save`. On a 500 the model keeps the table as fully upserted, since the count alone does not tell which rows landed.
- The load endpoint's 500 on a failed remote call (server.js:75-78) is left out: the modelled service does not fail. The save endpoint has no error handling of its own, so its remote failures are left out as well.
- Which 1000 rows the service returns for the listing (server.js:55) is unspecified, and `LoadHandler.ListPixels` returns an arbitrary selection of that size.
- Time is one integer reading per request. The source reads the clock twice on load (server.js:68, 70) and once plus once per pixel on save (server.js:85, 108).
- `created_at` is stored as an ISO-8601 string, and the timeout query compares strings (server.js:90). The model assumes string order is time order and compares integers.
- PixelIds.PixelId: coordinates are integers printed in exact decimal. For magnitudes above 2^53 JavaScript either rounds the number when the JSON body is parsed or prints it with rounded digits, the shortest that read back to the same double (with an exponent only from 1e21 on), so two such coordinates can share an id; those coordinates are not modelled. Neither are non-integer or non-numeric coordinates. Array elements that are not objects are not modelled either, and neither are extra fields a client adds to a pixel.
- When several caller rows share the latest time, `LoadHandler.MostRecent` picks any of them. They give the same wait.
- The check-then-write race between concurrent requests of one caller is left out: it is concurrency.
- The vendored SDK test (node_modules/datapantry/test/test.js) is left out: it exercises a remote server.
