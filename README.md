# Birthday Reminder: a Dafny model of the daily birthday pipeline

This project models the core of a small Node.js birthday reminder service. Once a day the
service finds every registered user whose date of birth falls on today's month and day, and
sends each one a birthday email. The model covers four parts:

- **Birthday matcher.** `User.getTodayBirthdays` builds the key `MM-DD` from today's month
  and day, each zero-padded to two digits. It selects every stored row whose
  `substr(date_of_birth, 6, 5)` (SQLite, 1-based) equals that key.
- **Notification dispatcher.** `getBirthdayEmailHTML` and `sendBirthdayEmail` build a fixed
  subject and HTML body around the username and call the mail transport once. Delivery maps
  to `{success: true, messageId}` and any error to `{success: false, error}`. The function
  never throws.
- **Campaign runner.** `checkAndSendBirthdayEmails` rejects on a read error. It resolves
  `{sent: 0, failed: 0}` when nobody matches. Otherwise it sends one email per matched user,
  waits for all of them with `Promise.all`, and resolves
  `{sent, failed, total: users.length}`.
- **Registration form validator.** The page script's `isValidEmail` tests
  `^[^\s@]+@[^\s@]+\.[^\s@]+$`. Its submit handler trims the username and email, clears an
  `isValid` flag for each failing field, and submits only if the flag is still set.

Modules, one per source file plus two helpers:

- `wrappers.dfy` (`Wrappers`): `Option`, and `Result` for `(err, value)` callbacks.
- `text.dfy` (`Text`): the runtime string primitives the core uses. These are `String(n)`,
  `padStart`, SQLite `substr`, the ECMAScript whitespace set shared by `\s` and `trim()`,
  and the UTF-16 length that `.length` reports.
- `user_model.dfy` (`UserModel`): the matcher.
- `email_service.dfy` (`EmailService`): the dispatcher.
- `birthday_service.dfy` (`BirthdayService`): the runner, `Promise.all` and the counting.
- `client_script.dfy` (`ClientScript`): the email predicate and the form validation method.

Inputs that stand in for I/O:

- Today's date is the `month` and `day` parameters (what `getMonth() + 1` and `getDate()`
  return).
- The table read is `Result<seq<User>, string>`: the rows in scan order, or the read
  error's message.
- The sender address (`process.env.EMAIL_USER`) is a `sender` parameter.
- For each matched user, what `transporter.sendMail` reports is one element of a
  `seq<TransportResult>`: `Success(messageId)` or `Failure(errorMessage)`.
- In the form, the outcome of the past-date comparison is a boolean parameter.

Three points where the code's behaviour may differ from what a reader expects:

- One might expect the no-birthday path to report `total: 0`. The code resolves
  `{sent: 0, failed: 0}` with no `total` field. `Summary.total` is therefore an `Option`,
  and it is `None` on that path.
- One might expect the daily trigger to guard against being registered twice.
  `startBirthdayCron` has no such guard. The trigger is not part of this model (see below),
  and no guard is added.
- One might expect month and day to be parsed as integers. The code compares substrings.
  The model keeps the substring comparison. `UserModel.IsoDateMatch` proves it equals
  comparing the parsed month and day integers for every date of the registered
  `YYYY-MM-DD` shape.

## Model

| member | source | states |
|---|---|---|
| `Text.ToDecimal` | src/models/user.js:47-48 | `String(n)` is a non-empty string of decimal digits |
| `Text.DecimalRoundTrip` | src/models/user.js:47-48 | `String(n)` is an exact decimal rendering: reading it back gives `n` |
| `Text.ToDecimalCanonical` | src/models/user.js:47-48 | `String(n)` has no leading zero unless `n` is 0 |
| `Text.PadStart` | src/models/user.js:47-48 | `padStart` gives the larger of the input length and the target length, keeps `s` as the suffix, and fills the rest with the fill character |
| `Text.TwoDigitPad` | src/models/user.js:47-48 | for `n < 100`, `String(n).padStart(2, '0')` is exactly the tens digit then the units digit |
| `UserModel.ZeroPad2` | src/models/user.js:47-48 | the padded field has two digits and its value is `n` |
| `UserModel.MonthDayKey` | src/models/user.js:46-48 | the key is 5 characters: two digits whose value is the month, `-`, two digits whose value is the day |
| `UserModel.KeyLeadingZeros` | src/models/user.js:47-48 | a month or day below 10 gets a leading `0` |
| `UserModel.KeyInjective` | src/models/user.js:56 | different (month, day) pairs give different keys |
| `Text.SqliteSubstr` | src/models/user.js:53 | `substr(s, start, length)` with a positive start has the SQLite length and characters |
| `UserModel.DateKey` | src/models/user.js:53 | the compared substring has at most 5 characters and is characters 6..10 of any date of at least 10 characters |
| `UserModel.IsBirthdayOn` | src/models/user.js:53 | the `WHERE` condition `substr(date_of_birth, 6, 5) = ?`; it can hold only for a key of at most 5 characters |
| `UserModel.Select` | src/models/user.js:51-60 | a row is returned iff it is stored and its characters 6..10 equal the key; the result is no longer than the table |
| `UserModel.SelectMultiplicity` | src/models/user.js:51-60 | each matching row keeps its multiplicity and non-matching rows are absent, so no matching row is omitted or duplicated |
| `UserModel.SelectAppend` | src/models/user.js:51-60 | selection distributes over concatenation of the table, so scan order is kept |
| `UserModel.GetTodayBirthdays` | src/models/user.js:45-63 | a read error gives that error and no rows; otherwise exactly the stored rows matching today's key, possibly none, with no error |
| `UserModel.IsoDateMatch` | src/models/user.js:50-53 | for a date of shape `dddd-dd-dd` (the registration regex), the compared substring is its `MM-DD` part, and it matches iff its month and day fields denote today's month and day |
| `UserModel.ShortDateNeverMatches` | src/models/user.js:53 | a stored date shorter than 10 characters never matches |
| `UserModel.YearIgnored` | src/models/user.js:50-53 | two dates that differ only in their first four characters are both selected or both excluded |
| `UserModel.MarchFifteenthExample` | src/models/user.js:45-63 | stored A (1990-03-15), B (1985-03-15) and C (2000-03-16): on 15 March exactly `[A, B]` is returned |
| `EmailService.Subject` | src/services/emailService.js:92 | the subject is the fixed greeting head, then the username verbatim, then the fixed tail |
| `EmailService.SubjectRoundTrip` | src/services/emailService.js:92 | the username can be read back from the subject |
| `EmailService.BirthdayEmailHtml` | src/services/emailService.js:4-84 | the body is the fixed head, `Dear `, the username verbatim (not escaped), `,` and the fixed tail |
| `EmailService.HtmlRoundTrip` | src/services/emailService.js:70 | the username can be read back from the body |
| `EmailService.MessageInjective` | src/services/emailService.js:4-5 | the body and the subject depend only on the username, and different usernames give different bodies and subjects |
| `EmailService.SendBirthdayEmail` | src/services/emailService.js:87-103 | exactly one message goes to the transport, `to` is the email argument unchanged, with the birthday subject and body; a delivery gives `Sent(messageId)`, a transport error gives `Failed(message)`, and nothing is thrown when that error carries a message |
| `BirthdayService.PromiseAll` | src/services/birthdayService.js:30 | fulfilled with every value in order iff every promise is fulfilled; otherwise rejected with the reason of some rejected promise |
| `BirthdayService.CountIf` | src/services/birthdayService.js:32-33 | `filter(p).length` is at most the length |
| `BirthdayService.CountIfComplement` | src/services/birthdayService.js:32-33 | the count of `p` plus the count of not-`p` is the length |
| `BirthdayService.CountIfPermutation` | src/services/birthdayService.js:32-33 | a permutation has the same count |
| `BirthdayService.SummaryOrderIndependent` | src/services/birthdayService.js:32-33 | `sent` and `failed` do not change under any reordering of the outcomes |
| `BirthdayService.PromisesAllFulfilled` | src/services/birthdayService.js:30 | `Promise.all` over the dispatches' promises is fulfilled, never rejected, with every dispatch's outcome in dispatch order |
| `BirthdayService.TransportCallsOnePerDispatch` | src/services/birthdayService.js:25-28 | single-message dispatches give exactly one transport message per user, in user order |
| `BirthdayService.SendToMatched` | src/services/birthdayService.js:16-41 | no users: `{sent: 0, failed: 0}` with no total and no messages; otherwise one message per user in order, to that user's address, and `sent`/`failed` are the counts of delivered and undelivered transport results, with `total` the number of users |
| `BirthdayService.CheckAndSendBirthdayEmails` | src/services/birthdayService.js:5-44 | a read error rejects with that error and sends nothing; the run rejects only then, so a send failure with an error message never rejects it; otherwise it is the matched-users step on today's rows |
| `BirthdayService.SummaryAddsUp` | src/services/birthdayService.js:32-36 | in every resolved summary with a total, `sent + failed == total` |
| `BirthdayService.AllSendsFail` | src/services/birthdayService.js:32-36 | when every send fails, the run still resolves, with `{sent: 0, failed: total, total}` |
| `BirthdayService.FailureIsLocal` | src/services/birthdayService.js:30-36 | turning one recipient's delivery into a failure keeps the run resolved, sends the same messages, and lowers `sent` by at most that one recipient |
| `Text.Trim` | src/public/script.js:18-19 | `trim()` leaves no leading or trailing whitespace and is no longer than its input |
| `Text.TrimBounds` | src/public/script.js:18-19 | gives the positions `a <= b` where the trimmed string `s[a..b]` lies in `s`, with only whitespace before `a` and from `b` on |
| `Text.TrimIsSlice` | src/public/script.js:18-19 | `trim()` keeps exactly the part of the input between its leading and its trailing whitespace |
| `Text.TrimIdempotent` | src/public/script.js:18-19 | trimming twice is the same as trimming once |
| `Text.Utf16Length` | src/public/script.js:25 | `.length` counts UTF-16 code units: between the number of characters and twice that |
| `Text.IsJsWhitespace` | src/public/script.js:101 | the characters `\s` matches and `trim()` removes: the ECMAScript WhiteSpace and LineTerminator code points |
| `Text.WhitespaceOutsideAddressSyntax` | src/public/script.js:101 | no whitespace character is `@`, `.` or a digit, and every one lies in the Basic Multilingual Plane |
| `ClientScript.IsValidEmail` | src/public/script.js:100-103 | `isValidEmail`: the string splits at an `@` and a later `.` into three non-empty runs without whitespace or `@`; an accepted string has at least 5 characters, an `@` and a `.` |
| `ClientScript.AcceptedIsWellFormed` | src/public/script.js:100-103 | every accepted address has no whitespace, exactly one `@`, a non-empty part before it, and a `.` in the part after it that is neither first nor last |
| `ClientScript.WellFormedIsAccepted` | src/public/script.js:100-103 | conversely, every string of that shape is accepted |
| `ClientScript.IsValidEmailIff` | src/public/script.js:101 | the regular expression accepts exactly the well-formed addresses |
| `ClientScript.AcceptsAddress` | src/public/script.js:101 | any whitespace-free `L@D` with L non-empty, no `@` in L or D, and an inner dot in D is accepted |
| `ClientScript.ValidateRegistration` | src/public/script.js:18-45 | submission goes ahead iff the trimmed username has UTF-16 length at least 2, the trimmed email passes `isValidEmail`, and the date is non-empty and not in the future; each failing check shows its field's error |

## Left out

- The daily trigger (`src/jobs/birthdayCron.js`) is not modelled, because its scheduling belongs to node-cron and the clock. The model does not add the double-registration guard that `startBirthdayCron` lacks.
- The database connection, schema bootstrap and uniqueness of `email` (`src/config/database.js`) are left out as I/O. The mail transport configuration (`src/config/email.js`) is left out too. Both are replaced by the `table` and `transport` inputs.
- The Express app and server (`src/app.js`, `server.js`), the routes' express-validator rules and the controller are left out as HTTP plumbing. The route's date regex (`src/routes/userRoutes.js:28`) is used only as the `IsIsoDateShape` hypothesis of `UserModel.IsoDateMatch`.
- `manual-birthday-check.js` is not modelled. It reads `result.total`, which is absent on the no-birthday path, so it prints `undefined` there.
- The clock, time zones and `Date` parsing are left out. Today's month and day are parameters. In the form, the `new Date(dateOfBirth) > new Date()` comparison is the boolean `dateInFuture`. The server-side past-date check is not modelled.
- Concurrency of the sends is left out. They are one transport result per matched user, taken in match order. Completion order does not affect the counts (`BirthdayService.SummaryOrderIndependent`).
- The store's row order is left out. Without `ORDER BY`, SQLite's order is unspecified; the model keeps the order of the `table` sequence.
- BirthdayService.PromiseAll: rejects with the lowest-index rejected promise, whereas `Promise.all` rejects with the first to reject in time. Given a transport that fails with an Error carrying a message (see the `EmailService.SendBirthdayEmail` line below), no promise in this pipeline rejects, so the difference is never observable here.
- Text.SqliteSubstr: models only a start position of at least 1, the only kind the query uses. Zero and negative starts are not modelled.
- EmailService.BirthdayEmailHtml: the styling and the static paragraphs of the template are abbreviated inside two constants. The stated properties hold for any fixed text.
- JavaScript strings are UTF-16 and the regular expression has no `u` flag, so it matches code units; the model works on Unicode code points. A surrogate is never whitespace and never `@`, so the accepted set is the same. `username.length` is modelled exactly by `Text.Utf16Length`.
- Logging (`console.*`), DOM updates (`showError`, `clearErrors`, `showMessage`, `hideMessage`), the `fetch` submission after validation, and `setTimeout` are left out.
- EmailService.SendBirthdayEmail: assumes that the transport fails with an Error carrying a message string, which is what `TransportResult`'s `Failure(errorMessage)` stands for. A rejection with `null` or `undefined` would make `error.message` in the catch block (src/services/emailService.js:100) throw a TypeError. `sendBirthdayEmail` would then reject, and so would `Promise.all` and the run (src/services/birthdayService.js:38-41). A thrown value that is not an Error, such as a string, would give `error: undefined` instead of a message. Neither case is modelled.
- A transport success whose `info.messageId` is undefined is not modelled: the transport input always carries a message id string.
