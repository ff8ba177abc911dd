# Quote intake server and page-capture tool, modelled in Dafny

This project models the sequential logic of the LED-rental quote service. The
service is an Express server (`server/index.js`). It accepts quote requests from
the public site, stores them in a `quotes` table (SQLite, or Postgres when
`DATABASE_URL` is set) and notifies the operator by e-mail and by SMS through the
Naver Cloud SENS gateway. An admin can log in, list the stored quotes and delete
them. The project also models the tiling arithmetic of the capture script
(`tools/capture_pptx/capture.js`). That script screenshots the home page in
1920x1080 tiles and turns each tile into one slide of a 16:9 deck.

Modules:

- `Wrappers`: `Option`.
- `Strings`: the JavaScript string built-ins the code relies on: `trim` with
  JavaScript's whitespace set, `split` on one character, `join`, `indexOf`,
  `replace` with a string pattern (first occurrence only), `String(n)` and
  `padStart`.
- `Config`: the environment variables, with "set" meaning defined and non-empty.
- `Cors`: parsing `ALLOWED_ORIGINS` and the `origin` callback.
- `Quotes`: the request payload, required-field validation (a loop with early
  exit), the 14 values bound to the INSERT, and the stored record.
- `Store`: the `quotes` table as a class. Its fields are the row sequence, the
  next id and (ghost) the set of ids issued so far. Its methods are
  `insertQuote`, `getQuotes` and `deleteQuote`.
- `Http`: the JSON answers.
- `Auth`: the admin password check and the bearer-token extraction of
  `authMiddleware`. JWT verification is a predicate passed in by the caller.
- `Notify`: the mail subject and 14-line body, the SMS text, the SENS path and
  the string the SENS signature covers, and which notifications are sent.
- `Server`: the three quote routes, with every throwing call a parameter.
- `Capture`: page height rounding, segment count, the screenshot loop and the
  slide loop.

In the submit route, `insertQuote`, `sendEmail` and `sendSms` share one `try`.
So a mail or SMS failure is answered 500 "Failed to save quote", although the
row is kept (`Server.SubmitResponse`, `Server.Submit`,
`Server.NotificationFailureAnswers500`).

The string the SENS signature covers is the method, a space, the URL, a line
break, the timestamp, a line break and the access key (`Notify.SignatureMessage`).

## Model

| member | source | states |
|---|---|---|
| Strings.Trim | server/index.js:40 | the result has no JavaScript whitespace at either end |
| Strings.TrimSandwich | server/index.js:40 | `trim` only removes whitespace: the result sits inside the input between two runs of whitespace |
| Strings.Split | server/index.js:39 | `split(",")` gives at least one part, no part holds the separator, and joining the parts gives back the input |
| Strings.SplitJoin | server/index.js:39 | splitting a join of separator-free parts gives back the parts |
| Strings.JoinAppend | server/index.js:222 | `join` puts exactly one separator between the joins of two lists of parts |
| Strings.SplitAppend | server/index.js:39 | splitting `u + sep + v` gives the parts of `u` followed by the parts of `v` |
| Strings.IndexOfFrom | server/index.js:173 | the result is the first occurrence at or after the start index, or there is none |
| Strings.ReplaceFirst | server/index.js:173 | `replace` with a string pattern rewrites only the first occurrence and leaves the string alone when there is none |
| Strings.NatToDecimal | tools/capture_pptx/capture.js:68 | `String(n)` has at least one digit, and exactly one iff `n < 10` |
| Strings.NatToDecimalDigits | tools/capture_pptx/capture.js:68 | `String(n)` is all decimal digits with no leading zero |
| Strings.DecimalRoundTrip | tools/capture_pptx/capture.js:68 | reading back `String(n)` as a decimal gives `n` |
| Strings.LeadingZeros | tools/capture_pptx/capture.js:68 | zeros put in front by `padStart` do not change the decimal value |
| Strings.PadStart | tools/capture_pptx/capture.js:68 | `padStart(width, c)` reaches `width` characters and leaves a string already that long as it is |
| Strings.PadStartFill | tools/capture_pptx/capture.js:68 | the result of `padStart` is copies of the pad character followed by `s` itself |
| Cors.NonEmptyMembers | server/index.js:41 | `filter(Boolean)` keeps exactly the non-empty strings |
| Cors.NonEmptyAppend | server/index.js:41 | the filter keeps the order: filtering a concatenation concatenates the results |
| Cors.AllowListHas | server/index.js:39-41 | `ParseAllowList`: a non-empty string is an allow-list entry iff some comma-separated segment trims to it |
| Cors.AllowListEntries | server/index.js:39-41 | every entry is non-empty, trimmed and comma-free |
| Cors.AllowListOrder | server/index.js:39-41 | entries keep their comma order: the list for `u,v` is the list for `u` followed by the list for `v` |
| Cors.Admit | server/index.js:45-50 | no Origin, an empty Origin, or an empty list is admitted; otherwise the origin is admitted iff it is exactly an entry |
| Cors.AdmitFromConfig | server/index.js:39-50 | a non-empty origin is admitted iff the list is empty or some segment of `ALLOWED_ORIGINS` trims to it |
| Cors.UnlistableOriginRefused | server/index.js:39-50 | with a non-empty list, an origin with surrounding spaces or a comma is refused |
| Cors.BlankAllowList | server/index.js:39-47 | the list is empty, so every origin is admitted, iff `ALLOWED_ORIGINS` holds only commas and whitespace |
| Quotes.FieldOr | server/index.js:324-333 | `payload[f] \|\| ""` is the value when present and non-empty, else `""` |
| Quotes.FirstMissing | server/index.js:312-318 | nothing is missing iff every field is present; otherwise the result is a missing field with every earlier field present |
| Quotes.Validate | server/index.js:313-318 | the loop with early return answers the first required field, in check order, that is missing or empty |
| Quotes.ValidatedIffComplete | server/index.js:312-318 | validation passes iff all six required fields are present and non-empty |
| Quotes.Row | server/index.js:321-336 | exactly 14 values; the six required ones are non-empty; the stamp is last |
| Quotes.RowColumns | server/index.js:321-336 | each of the first 13 values is the payload field named by the INSERT column at that position: the field as sent for a required column, `""` for an optional column (`eventDuration`, `ledType`, `ledSize`, `ledContent`, `power`, `extra`, `contactCompany`) left out |
| Quotes.QuoteOf | server/index.js:139-140 | the stored row carries the given id and the 14 bound values in column order |
| Quotes.StoredQuoteFields | server/index.js:321-336 | the stored record holds the required fields as sent, the optional ones or `""`, and the stamp |
| Quotes.RequiredStoredNonEmpty | server/index.js:312-336 | a stored record never has an empty required field |
| Store.WithoutMembers | server/index.js:163-169 | `Without`, the table after `DELETE ... WHERE id = ?`: the rows left are exactly those whose id differs |
| Store.DeleteAbsent | server/index.js:163-169 | deleting an id that is not stored changes nothing |
| Store.DeletePresent | server/index.js:163-169 | deleting a stored id removes exactly one row and the id is gone |
| Store.DeleteKeepsOrder | server/index.js:163-169 | deleting keeps the rows in ascending id order |
| Store.QuoteStore.constructor | server/index.js:63-109 | a fresh table, created by SQLite's `CREATE TABLE` (63-80) or Postgres's (91-109), is empty and issues id 1 first |
| Store.QuoteStore.Insert | server/index.js:136-153 | one row appended under an id greater than every id issued before (deleted ones included); the other rows are unchanged |
| Store.QuoteStore.List | server/index.js:155-161 | every stored row, newest first: the rows reversed, strictly descending by id, the same multiset |
| Store.QuoteStore.Delete | server/index.js:163-169 | the rows become the rows without that id; the id counter and the issued ids are unchanged |
| Auth.Login | server/index.js:281-289 | a token is issued iff a non-empty password equal to `ADMIN_PASSWORD` is supplied and `ADMIN_TOKEN_SECRET` is set, with role "admin", that secret and "12h"; a wrong or missing password is 401 "Invalid password"; a right password without a secret makes `jwt.sign` throw, so the answer is Express's 500 |
| Auth.NoSecretNoToken | server/index.js:281-289 | with `ADMIN_TOKEN_SECRET` unset or empty no password obtains a token, and the right one gets 500 |
| Auth.NoPasswordNoLogin | server/index.js:281-286 | with `ADMIN_PASSWORD` unset no login succeeds |
| Auth.BearerToken | server/index.js:172-173 | the token is never longer than the header |
| Auth.BearerPrefixStripped | server/index.js:172-173 | the header `Bearer t` yields `t` |
| Auth.NoBearerTakenWhole | server/index.js:172-173 | a header without "Bearer " is taken whole as the token |
| Auth.BearerReplacedInside | server/index.js:172-173 | the removal is not anchored: wherever "Bearer " first occurs, after any `x`, the token is the header with that occurrence cut out (`xBearer y` gives `xy`) |
| Auth.EmptyTokenRefused | server/index.js:171-177 | no header, an empty header and a bare "Bearer " are refused whatever the verifier says |
| Auth.AuthorizedBearer | server/index.js:171-184 | `Authorized` (`authMiddleware`): the header `Bearer t` passes iff `t` is non-empty and verifies against `ADMIN_TOKEN_SECRET \|\| ""` |
| Notify.OrDash | server/index.js:211 | `value \|\| "-"` is never empty |
| Notify.EmailLines | server/index.js:207-221 | the body has one line per label, 14 in all |
| Notify.EmailShowsRow | server/index.js:207-221 | mail line k shows the value stored in column k, with "-" for an empty optional field; the last line shows the stamp |
| Notify.RequiredLineShown | server/index.js:208-220 | a required field's line shows the stored value, which is never empty |
| Notify.OptionalLineShown | server/index.js:211-218 | an optional field's line shows the stored value or "-" |
| Notify.EmailTextLines | server/index.js:207-222 | `EmailText`: when no value holds a line break, splitting the body at line breaks gives back the 14 lines |
| Notify.EmailFor | server/index.js:201-229 | a mail is sent iff the SMTP settings and `ADMIN_EMAIL` are all set, from `SMTP_FROM` to `ADMIN_EMAIL`, its subject the prefix and the event name, its text the 14-line body |
| Notify.SentMailShowsRow | server/index.js:201-229 | when no stored value holds a line break, the body of the mail sent splits into 14 lines, line k showing column k of the stored row ("-" for an empty optional one) and the last the stamp |
| Notify.SmsContentFields | server/index.js:252 | `SmsContent`: when the three values hold no '/', cutting the SMS text at '/' recovers them |
| Notify.SensPathServiceId | server/index.js:245 | `SensPath`: a service id without '/' is one whole segment of the path, which splits into "", "sms", "v2", "services", the id and "messages" |
| Notify.SignatureMessageParts | server/index.js:232-233 | `SignatureMessage` (`makeSensSignature`): the signed string splits at line breaks back into "method url", the timestamp and the access key |
| Notify.SignatureRequestLine | server/index.js:233 | the first line is the method, one space, and the URL: it splits back into those two |
| Notify.SmsFor | server/index.js:239-262 | an SMS is sent iff all five SENS settings are set, to the service path, stamped with `String(now)`, carrying the access key, signing "POST path" with that stamp and key, from `SENS_FROM_NUMBER` to `ADMIN_PHONE` with the SMS text |
| Notify.SentSmsSigned | server/index.js:232-262 | when the service id holds no space or line break and the key no line break, the signed string of the request sent splits back into "POST" and its own path, its timestamp header and its access-key header |
| Notify.Dispatched | server/index.js:340-343 | one notification per configured channel, mail first, each the one its sender builds |
| Server.SubmitResponse | server/index.js:310-350 | `{ ok: true }` iff the payload is complete and neither the insert nor a configured sender throws; 400 iff incomplete, naming the first missing required field in check order; otherwise 500 "Failed to save quote" |
| Server.Submit | server/index.js:310-350 | an incomplete payload or a failed insert leaves the table and the outbox untouched; otherwise exactly one row is added and both senders are started, whatever the answer |
| Server.NotificationFailureAnswers500 | server/index.js:338-350 | a sender failure after a successful insert (the row is kept, see `Server.Submit`) answers 500 |
| Server.UnconfiguredChannelsCannotFail | server/index.js:338-350 | with neither channel configured, the answer is `{ ok: true }` iff the row is stored |
| Server.ListQuotes | server/index.js:291-298 | 401 without a valid token, 500 on a storage error, else all rows newest first |
| Server.DeleteQuote | server/index.js:300-308 | 401 without a valid token, 500 on a storage error, else `{ ok: true }` with that id's row removed, also when there was none |
| Capture.CeilDiv | tools/capture_pptx/capture.js:58 | the least multiple count: `q * b >= a` and `(q - 1) * b < a` |
| Capture.TotalHeight | tools/capture_pptx/capture.js:58 | a multiple of 1080, at least the page height and less than 1080 above it |
| Capture.TotalHeightLeast | tools/capture_pptx/capture.js:58 | no smaller multiple of 1080 holds the page |
| Capture.TotalHeightIdempotent | tools/capture_pptx/capture.js:58 | a page already a multiple of 1080 tall (0 included) keeps its height; rounding twice is rounding once |
| Capture.Segments | tools/capture_pptx/capture.js:63 | the segments reach at least the rounded height |
| Capture.SegmentsFill | tools/capture_pptx/capture.js:58-63 | segments times 1080 is exactly the rounded height, i.e. one segment per started viewport |
| Capture.ClipsContiguous | tools/capture_pptx/capture.js:67-71 | consecutive clips meet: clip i ends on the row where clip i+1 begins |
| Capture.ClipsTile | tools/capture_pptx/capture.js:63-72 | every row of the rounded page lies in exactly one clip, number `y / 1080` |
| Capture.LastClipEndsPage | tools/capture_pptx/capture.js:58-72 | the last clip ends exactly at the rounded page height |
| Capture.PaddedValue | tools/capture_pptx/capture.js:68 | `CapName`: the number part of a capture name is digits whose value is the capture number |
| Capture.CapNameTwoDigits | tools/capture_pptx/capture.js:68 | captures 1 to 99 get exactly two digits |
| Capture.CapNameInjective | tools/capture_pptx/capture.js:68 | different capture numbers give different file names |
| Capture.CaptureAll | tools/capture_pptx/capture.js:64-74 | one clip and one name per segment, in order: clip i is viewport i and is saved as capture i+1 |
| Capture.CapPathsDistinct | tools/capture_pptx/capture.js:68-73 | the names written in one run are pairwise distinct |
| Capture.BuildSlides | tools/capture_pptx/capture.js:81-84 | one slide per capture, in order, its picture filling the 13.333 x 7.5 slide |
| Capture.Run | tools/capture_pptx/capture.js:57-84 | a page of height h gives ceil(h / 1080) slides, slide i showing viewport i from capture i+1, no two from the same file |

## Left out

- Express routing, the JSON body parser, `dotenv` loading, the `/health` and `/`
  routes, and server start-up: framework glue. The configuration is the `Env`
  value.
- The SQLite and Postgres drivers, the pool, the TLS option and the SQL text. The
  table is modelled once, by its effect. Both engines hand out increasing ids
  that are never reused.
- Store.QuoteStore.Insert: does not model an id consumed by an insert that fails, nor the id type's bound: `nextId` is unbounded, whereas Postgres's `SERIAL` stops at 2147483647 (later inserts fail and the submit answers 500, the path `insertThrows` covers) and SQLite's rowid at 2^63-1.
  Postgres's `SERIAL` can skip a number; the model issues the next id only on success.
- Server.DeleteQuote: the `:id` path parameter is a string. SQLite converts a
  numeric one before comparing it with the id, and any other string matches no
  row (answer `{ ok: true }`). Postgres parses it as an integer and fails the
  query when it is not a 32-bit integer (`abc`, `1.0`, `99999999999`), so the
  answer is 500 "Failed to delete". The model takes an integer id and covers
  that failure through `storageThrows`.
- `jsonwebtoken` signing and verification, including the 12-hour expiry. Login
  yields the claims to sign, and verification is a predicate given by the caller.
- HMAC-SHA256 and base64 in `makeSensSignature`: only the signed string is modelled.
- nodemailer, `fetch` to the SENS gateway and its status/body handling:
  network I/O. Whether a sender throws is a parameter (`Server.Faults`).
- Server.Submit: `Promise.all` runs both senders concurrently. The model starts
  them in sequence (mail first), and either one failing fails the answer.
- `new Date().toLocaleString("ko-KR", ...)` and `Date.now()`: the stamp string
  and the clock value are inputs.
- Payload values that are not strings (numbers, booleans, objects in the JSON
  body): the payload is a map from field names to strings. An absent key is
  `undefined`.
- puppeteer, pptxgenjs, removing old captures, the injected CSS, waiting for
  images, the directory part of each capture path, and writing the deck: browser
  and file I/O. The page's scroll height is an input.
- Strings.IndexOfFrom: JavaScript clamps a start index past the end, so `"".indexOf("", 5)` is 0; the model answers none there. The server only searches from 0.
- Strings.ReplaceFirst: JavaScript expands `$&`, `$$` and similar patterns in the replacement string; the model inserts it literally. The server replaces with `""`.
- Store.QuoteStore.List: Postgres folds the unquoted column names of the `CREATE TABLE` to lower case, so there the listed rows have keys such as `eventname` and `createdat`, while SQLite keeps `eventName`. The model has one `Quote` record for both.
- Capture.TotalHeight: `Math.ceil(fullHeight / VIEW_H)` is floating-point
  division. The model uses exact integer ceiling division, which agrees for
  every page height a browser reports.
- The slide size 13.333 x 7.5 is kept as a real constant; nothing is proved about it.
