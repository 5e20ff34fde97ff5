# edutrack attendance core in Dafny

This project models the logic of the edutrack school attendance app, a
Next.js application for teachers. The model covers:

- the dashboard aggregation (`GET /api/dashboard`): the month window, the
  present/absent totals, the percentages and the daily chart series;
- the dashboard's client-side chart transform and pie condition;
- the attendance grid screen: rows filled from records, and the optimistic
  cell toggle that is reverted when the save fails;
- the attendance endpoints: `GET`/`POST /api/attendance` and the
  `POST /api/attendance/bulk` loop;
- the token and credential helpers of `src/lib/auth.ts`: password and
  e-mail validators, base64url encoding and decoding, token generation,
  verification and the user-id lookup;
- the route guard (`src/middleware.ts`) and its path matcher;
- the registration and login endpoints;
- the student roster: `GET`/`POST /api/students` and the students screen's
  filter, add, edit and delete handlers.

The database tables are values: a `seq` of students, a `seq` of teachers,
and a `map` from `(student id, date)` to the present flag. They sit in a
`Database` class whose methods perform the inserts and upserts. Screens
that hold state (the attendance grid, the students list) are classes whose
methods update their fields. The request handlers' pure parts are
functions returning `Result` values; an error carries the HTTP status and
the message.

Parameters stand for what the model cannot see:

- the clock (`today`, `now`);
- JSON encoding and parsing, HMAC-SHA-256 and bcrypt;
- the browser's date parser;
- the outcome of `fetch` calls.

`btoa`/`atob` are modelled exactly: the alphabet of section 4 of RFC 4648,
the forgiving decode of the WHATWG Infra standard, and the base64url
variant of section 5 of RFC 4648. Tokens follow the compact form of
section 7.1 of RFC 7515. The `exp` check differs from section 4.1.4 of
RFC 7519: a token with `exp == now` is still accepted.

Modules: `Wrappers` (Option, Result), `Text` (JavaScript string
operations), `JsValues` (JSON values, truthiness, `===`), `Calendar`,
`Http`, `Store`, `Base64`, `Auth`, `DashboardApi`, `DashboardPage`,
`AttendancePage`, `AttendanceApi`, `AttendanceBulk`, `Middleware`,
`Register`, `Login`, `StudentsApi`, `StudentsPage`.

In month mode the per-day absent count subtracts each day's present count
from `totalStudents`, the grade-filtered count
(src/app/api/dashboard/route.ts:14-21, 192).

## Model

| member | source | states |
|---|---|---|
| Text.Trim | src/app/api/auth/register/route.ts:28 | `trim()` keeps the slice of the input between its leading and trailing white space: it neither starts nor ends with white space, and everything dropped before and after it is white space; the result is empty exactly when the input is all white space |
| Text.ToLower | src/app/api/auth/register/route.ts:62 | lower-casing keeps the length and maps each character through the A..Z to a..z table |
| Text.ContainsIffOccurs | src/app/students/page.tsx:36 | `includes` holds exactly when the text occurs at some position |
| Text.ContainsEmpty | src/app/students/page.tsx:35-38 | every string includes the empty string |
| Text.Split | src/lib/auth.ts:117 | `split` gives at least one piece, no piece holds the separator, and joining the pieces gives the input back |
| Text.SplitJoin | src/lib/auth.ts:117-122 | splitting a join of separator-free parts gives the parts back |
| Text.SplitCount | src/lib/auth.ts:117-118 | the number of pieces is one more than the number of separators |
| Text.NatToString | src/app/api/dashboard/route.ts:208 | `toString` writes decimal digits whose value is the number, with no leading zero |
| Text.Pad2 | src/app/attendance/page.tsx:138 | `padStart(2, '0')` writes the number's digits, two of them below 100 |
| Text.ParseIntReadsDecimal | src/app/api/attendance/route.ts:19-20 | `parseInt` reads back a run of decimal digits as its value |
| Text.ParseIntOfNatToString | src/app/api/attendance/route.ts:19-20 | `parseInt` reads back what `toString` writes |
| Text.ParseIntOfPad2 | src/app/api/attendance/route.ts:19-20 | `parseInt` reads back a zero-padded month as its number |
| Text.ParseIntSkipsSpace | src/app/api/attendance/route.ts:19-20 | `parseInt` ignores a leading white-space character |
| Text.ParseIntNegates | src/app/api/attendance/route.ts:19-20 | a leading minus sign negates the number read, and text without a number stays `NaN` |
| JsValues.StrictEquals | src/app/api/auth/register/route.ts:53 | `===` holds only between equal values, and always between equal primitives |
| Http.GradeFilter | src/app/api/dashboard/route.ts:14 | a grade filters exactly when it is present, not empty and not `all` |
| Calendar.DaysInMonth | src/app/attendance/page.tsx:36 | a month has 28..31 days: 29 exactly for February of a leap year, 30 exactly for April, June, September and November |
| Calendar.ConstructorMonth | src/app/api/dashboard/route.ts:31 | `new Date(year, monthIndex, 1)` lands on month number `year * 12 + monthIndex`, carrying into the year |
| Calendar.LastDayOfMonth | src/app/api/attendance/route.ts:31 | day 0 of the next month is between 28 and 31 |
| Calendar.LastDayIsMonthLength | src/app/attendance/page.tsx:36 | for years outside 0..99, `new Date(y, m, 0).getDate()` is the Gregorian length of month m |
| Calendar.TwoDigitYearQuirk | src/app/api/dashboard/route.ts:34 | year 0 is read as 1900, so February of year 0 gets 28 days although year 0 is a leap year |
| Calendar.DateTextRoundTrip | src/app/attendance/page.tsx:138 | a date written with a four-digit year matches `^\d{4}-\d{2}-\d{2}$` and its fields read back as the date |
| Calendar.ReadDate | src/app/api/attendance/route.ts:155 | the `::date` cast accepts only pattern-shaped text naming a real calendar date |
| Calendar.ReadDateText | src/app/api/attendance/route.ts:30-32 | every calendar date with a four-digit year, written out, is read back as itself |
| Store.Database.constructor | src/lib/db.ts:13-37 | the students and attendance tables start empty, and so does the teachers table, whose schema is not part of this model |
| Store.Upsert | src/lib/db.ts:35 | an upsert on the unique (student_id, date) key sets that key's flag and leaves every other key as it was |
| Store.UpsertLastWins | src/app/api/attendance/route.ts:156-159 | saving one key twice leaves the later flag |
| Store.UpsertIdempotent | src/app/api/attendance/route.ts:153-161 | repeating an identical save changes nothing |
| Store.UpsertCommutes | src/app/api/attendance/bulk/route.ts:18-34 | saves to different keys commute |
| Store.UpsertRow | src/lib/db.ts:29-35 | the database writes a row exactly when the date literal is a calendar date and the student exists |
| Store.FindTeacher | src/app/api/auth/login/route.ts:37-41 | the lookup finds a teacher with exactly that e-mail, or reports that none exists |
| Store.Database.UpsertAttendance | src/app/api/attendance/route.ts:153-161 | the attendance table becomes the upsert of the written row, or stays as it was when the row is refused; the other tables do not change |
| Store.Database.InsertStudent | src/app/api/students/route.ts:67-71 | the new student gets a fresh serial id and is appended; nothing else changes |
| Store.Database.InsertTeacher | src/app/api/auth/register/route.ts:75-79 | the new teacher gets the next serial id, which no stored teacher has, and is appended; nothing else changes |
| DashboardApi.DaysToConsider | src/app/api/dashboard/route.ts:27-48 | the month window is at most 31 days |
| DashboardApi.CurrentMonthWindow | src/app/api/dashboard/route.ts:39-41 | in today's month the window runs to today's day, which never passes the month's length |
| DashboardApi.PastMonthWindow | src/app/api/dashboard/route.ts:42-44 | a month before today's month counts all its days, whatever today's day is |
| DashboardApi.FutureMonthWindow | src/app/api/dashboard/route.ts:45-48 | a month after today's month counts no days |
| DashboardApi.CountInGrade | src/app/api/dashboard/route.ts:15 | the grade count is at most the roster size, and equals it exactly when every student is in the grade |
| DashboardApi.TotalStudents | src/app/api/dashboard/route.ts:13-21 | the student count never exceeds the roster, and is the whole roster without a grade filter |
| DashboardApi.ResolveTotals | src/app/api/dashboard/route.ts:96-125 | with a month and a positive expectation the total is the expectation; otherwise the absent count is the explicit one; the total is always present + absent |
| DashboardApi.RoundedTenths | src/app/api/dashboard/route.ts:128 | the tenths value is 1000·n/total rounded to the nearest whole number |
| DashboardApi.PercentTenths | src/app/api/dashboard/route.ts:128-129 | a percentage is 0 without records and otherwise the nearest tenth, a tie going away from zero |
| DashboardApi.PercentagesSum | src/app/api/dashboard/route.ts:128-129 | when present and absent split the total, the two percentages add up to 100.0 or 100.1, never less and never more |
| DashboardApi.MonthRows | src/app/api/dashboard/route.ts:133-156 | the month query's grouped rows come in increasing day order, each with that day's count of distinct grade-filtered rows (positive) and of present ones |
| DashboardApi.MonthRowsCoverDays | src/app/api/dashboard/route.ts:133-156 | every day of the month range with at least one grade-filtered attendance row has its grouped row |
| DashboardApi.AllAbsent | src/app/api/dashboard/route.ts:206-212 | the synthesised series has one entry per counted day |
| DashboardApi.BuildChart | src/app/api/dashboard/route.ts:186-213 | the `map` and the `push` loop build exactly the chart series |
| DashboardApi.MonthChartAbsence | src/app/api/dashboard/route.ts:190-192 | in month mode every entry's absent count is the roster size minus that day's present count |
| DashboardApi.ListedChartCounts | src/app/api/dashboard/route.ts:193-195 | outside month mode every entry carries its row's stored counts, one entry per row |
| DashboardApi.EmptyMonthSeries | src/app/api/dashboard/route.ts:205-213 | a month with no rows and a positive window gives exactly the days "1".."days", each with nobody present and the whole roster absent |
| DashboardApi.NonEmptyNotPadded | src/app/api/dashboard/route.ts:205 | a non-empty row set is never padded |
| DashboardApi.Get | src/app/api/dashboard/route.ts:4-244 | the handler, with its counters assigned branch by branch and the chart built by loops, returns the dashboard response |
| DashboardApi.ExpectedRecords | src/app/api/dashboard/route.ts:24-25 | the expectation is roster × days; without a month both are 0 |
| DashboardApi.ImpliedAbsence | src/app/api/dashboard/route.ts:99-102 | with a month and a positive expectation, absent = expected − present, unclamped, and negative when more present rows exist than were expected |
| DashboardApi.ExplicitAbsence | src/app/api/dashboard/route.ts:103-125 | otherwise absent is the explicit absent count, which is never month-filtered |
| DashboardApi.AbsenceFromOtherMonthCounted | src/app/api/dashboard/route.ts:99 | a June absence is counted for a July that has not begun |
| DashboardApi.NoRecordsNoPercentages | src/app/api/dashboard/route.ts:128-129 | both percentages are 0 when there are no records |
| DashboardApi.MonthChartUsesRoster | src/app/api/dashboard/route.ts:190-192 | in month mode the response's chart subtracts each day's present count from the roster size |
| DashboardPage.NumberOrZero | src/app/dashboard/page.tsx:102-103 | `Number(v) \|\| 0` keeps numbers and turns missing and object values into 0 |
| DashboardPage.RoundPercent | src/app/dashboard/page.tsx:110 | the percentage is 100·present/total rounded half up, and 0 when the total is not positive |
| DashboardPage.PercentInRange | src/app/dashboard/page.tsx:110 | with non-negative counts the percentage lies in 0..100 |
| DashboardPage.LineChartData | src/app/dashboard/page.tsx:101-112 | one point per chart entry, in order; nothing when the chart data is missing |
| DashboardPage.MissingValuesDefault | src/app/dashboard/page.tsx:102-107 | a missing day becomes the empty string and missing counts become 0 |
| DashboardPage.ApiPointsCarryOver | src/app/dashboard/page.tsx:101-112 | entries from the endpoint keep their day and counts, and their percentage lies in 0..100 |
| DashboardPage.PieShownIffRecords | src/app/dashboard/page.tsx:344 | for a non-negative present count and total, the distribution chart is shown exactly when there is at least one record, including a month whose implied absent count is negative |
| DashboardPage.PresentBeyondTotal | src/app/dashboard/page.tsx:344 | a present count above a positive total gives a positive present percentage, so the chart is shown |
| AttendancePage.TargetCell | src/app/attendance/page.tsx:81-111 | a record writes a cell exactly when it is the student's, has a readable date in the selected month and its day fits the row; the cell is day − 1 |
| AttendancePage.Apply | src/app/attendance/page.tsx:80-117 | applying records keeps the row length |
| AttendancePage.LastRecordWins | src/app/attendance/page.tsx:80-117 | when several records hit one cell, the last one decides its value |
| AttendancePage.UntouchedCell | src/app/attendance/page.tsx:80-117 | a cell no record targets keeps its value |
| AttendancePage.SkippedRecord | src/app/attendance/page.tsx:92-95 | a record that targets no cell, including one whose date does not parse, changes nothing |
| AttendancePage.FilledShape | src/app/attendance/page.tsx:76 | every row has exactly `daysCount` cells, and a cell no record targets is false |
| AttendancePage.FillRow | src/app/attendance/page.tsx:76-117 | the array filled cell by cell holds exactly the specified row |
| AttendancePage.RowsOf | src/app/attendance/page.tsx:74-124 | one row per roster student |
| AttendancePage.BuildRows | src/app/attendance/page.tsx:230-278 | the loop over the roster builds exactly the specified rows |
| AttendancePage.FindRow | src/app/attendance/page.tsx:141 | `find` returns the first row with the id, or nothing when no row has it |
| AttendancePage.SetCells | src/app/attendance/page.tsx:148-157 | only the given cell of the rows with the id changes; other rows and the length stay |
| AttendancePage.RevertRestores | src/app/attendance/page.tsx:175-184 | writing the previous value back after a flip restores the grid |
| AttendancePage.AttendanceView.constructor | src/app/attendance/page.tsx:13-17 | the screen starts on July 2024 with 31 days and no rows |
| AttendancePage.AttendanceView.SelectPeriod | src/app/attendance/page.tsx:33-41 | a new period sets the day count to that month's length and rebuilds the rows; a failed roster fetch keeps the old rows |
| AttendancePage.AttendanceView.Search | src/app/attendance/page.tsx:202-280 | the search rebuilds the rows with the stored day count; a failed roster fetch keeps the old rows |
| AttendancePage.AttendanceView.BeginToggle | src/app/attendance/page.tsx:132-169 | the cell flips at once and the save sends the negated value for day `dayIndex + 1`; an unknown student changes nothing |
| AttendancePage.AttendanceView.FinishToggle | src/app/attendance/page.tsx:171-199 | on a failed save the previous value goes back into the cell |
| AttendancePage.ToggleThenFail | src/app/attendance/page.tsx:132-199 | a failed save right after the flip leaves the grid exactly as it was before the click |
| AttendanceApi.PlanQuery | src/app/api/attendance/route.ts:17-34 | the date filter applies only when year and month are both given; then a non-numeric value or a month outside 1..12 is a 400; `all` means no grade filter |
| AttendanceApi.MonthRangeBounds | src/app/api/attendance/route.ts:30-32 | the range literals read as the first and the last day of the month |
| AttendanceApi.WithinMonthRange | src/app/api/attendance/route.ts:48-49 | a date lies between those days exactly when it is in the month |
| AttendanceApi.GetOneMonth | src/app/api/attendance/route.ts:17-71 | with a valid year and month, GET returns exactly the rows of that month, of the grade when one is selected |
| AttendanceApi.GetWithoutMonth | src/app/api/attendance/route.ts:72-105 | without both year and month every joined row of the grade is listed |
| AttendanceApi.ValidatePost | src/app/api/attendance/route.ts:126-149 | a falsy id or date, a non-boolean flag, text not matching the date pattern and a date the parser cannot read are each a 400 |
| AttendanceApi.PostOutcome | src/app/api/attendance/route.ts:121-161 | a body is saved exactly when it passes the guards, its id is a number naming a stored student and its date is a calendar date; the saved row holds the body's id, date and flag; past the guards every failure is the 500 |
| AttendanceApi.RejectedBeforeWrite | src/app/api/attendance/route.ts:126-149 | a body the guards reject never reaches the table |
| AttendanceApi.Post | src/app/api/attendance/route.ts:153-161 | the handler changes exactly the saved row's key |
| AttendanceBulk.RunAll | src/app/api/attendance/bulk/route.ts:16-40 | the loop saves at most one row per item |
| AttendanceBulk.RunIsReplay | src/app/api/attendance/bulk/route.ts:18-36 | the table after the loop is the old table with the saved rows written over it in order |
| AttendanceBulk.ReplayLastWins | src/app/api/attendance/bulk/route.ts:26-34 | for a key written more than once, the last saved row's flag remains |
| AttendanceBulk.ReplayUntouched | src/app/api/attendance/bulk/route.ts:26-34 | a key no saved row has keeps its old state |
| AttendanceBulk.AbortStays | src/app/api/attendance/bulk/route.ts:47-52 | once the loop has thrown, later items change nothing |
| AttendanceBulk.EntryWithoutRow | src/app/api/attendance/bulk/route.ts:21-39 | a skipped entry and an entry whose insert fails leave the loop state as it was |
| AttendanceBulk.AllSkipped | src/app/api/attendance/bulk/route.ts:42-46 | a batch whose entries are all skipped still succeeds, with 0 saved and nothing written |
| AttendanceBulk.PostBulk | src/app/api/attendance/bulk/route.ts:4-54 | a missing or empty list is a 400 and writes nothing; otherwise the table and the response are the loop's |
| Base64.Btoa | src/lib/auth.ts:25 | `btoa` succeeds exactly on binary strings, and its output length is a multiple of 4 |
| Base64.SextetsRoundTrip | src/lib/auth.ts:25 | regrouping the 6-bit groups gives the bytes back |
| Base64.Atob | src/lib/auth.ts:36 | `atob` succeeds only on text that, without white space and up to two trailing `=`, uses the alphabet and does not have length 4k + 1 |
| Base64.StripEncoded | src/lib/auth.ts:36 | `atob`'s padding step removes exactly the padding `btoa` appended |
| Base64.AtobBtoa | src/lib/auth.ts:25-36 | `atob(btoa(s)) == s` for every binary string |
| Base64.ToUrl | src/lib/auth.ts:26-28 | the URL form has no `=`, `+` or `/` |
| Base64.FromUrl | src/lib/auth.ts:36 | `-` and `_` turn back into `+` and `/`, position by position |
| Base64.ToUrlAppend | src/lib/auth.ts:26-28 | the character replacements distribute over concatenation |
| Base64.UrlEncode | src/lib/auth.ts:24-29 | base64url encoding succeeds exactly on binary strings |
| Base64.UrlEncodeShape | src/lib/auth.ts:24-29 | the encoding has only URL-safe characters, and as many as the digits without padding |
| Base64.PadToQuantum | src/lib/auth.ts:35 | the intended padding reaches the next multiple of 4 and adds fewer than 4 characters |
| Base64.UrlRoundTrip | src/lib/auth.ts:24-37 | decoding with the intended padding inverts the encoding |
| Base64.AsWrittenRejectsAligned | src/lib/auth.ts:35 | as written, decoding throws on every input whose length is a multiple of 4 |
| Base64.AsWrittenAgreesOtherwise | src/lib/auth.ts:35 | on the other lengths the written padding is the intended one |
| Base64.AsWrittenCounterexample | src/lib/auth.ts:34-37 | "abc" encodes to "YWJj", which the written decode refuses and the intended one reads back |
| Auth.TokenClaimsMeaning | src/lib/auth.ts:86-95 | the user id is the first truthy of `userId` and `id`, the type defaults to teacher, and `exp = iat + 604800` |
| Auth.Signature | src/lib/auth.ts:42-60 | the signature exists exactly when the HMAC output is a binary string |
| Auth.VerifyToken | src/lib/auth.ts:113-154 | with the padding as intended: a verified token splits into exactly three parts, its signature matches, and it has not expired |
| Auth.ThreeParts | src/lib/auth.ts:101-104 | three dot-free pieces joined by dots split back into those pieces |
| Auth.EncodedHasNoDot | src/lib/auth.ts:24-29 | base64url text has no dot |
| Auth.GenerateToken | src/lib/auth.ts:78-108 | a token exists exactly when the header, the payload text and the HMAC output are binary strings, and it splits back into the encoded header, the encoded payload and the signature |
| Auth.HeaderIsBinary | src/lib/auth.ts:81-84 | the fixed header always encodes, so only the payload or the HMAC can make token generation fail |
| Auth.IsExpired | src/lib/auth.ts:136 | a missing or zero `exp` never expires; a numeric one expires exactly once `now` has passed it |
| Auth.VerifyTokenAsWritten | src/lib/auth.ts:113-154 | a token that verifies as written splits into three parts, its signature matches, its payload segment has a length that is not a multiple of 4, and it has not expired |
| Auth.AsWrittenAgreesOnToken | src/lib/auth.ts:132 | on a token whose payload segment has a length that is not a multiple of 4, the written verification is the intended one |
| Auth.GeneratedTokenVerifies | src/lib/auth.ts:78-154 | with the padding as intended, a generated token verifies exactly while `now` is at most `exp` (or `exp` is the falsy 0), and yields the signed payload |
| Auth.FreshPayload | src/lib/auth.ts:132-138 | a payload with the claims of a fresh token fails only by expiring |
| Auth.AsWrittenRejectsGenerated | src/lib/auth.ts:35 | as written, a token whose payload text has a length divisible by 3 never verifies |
| Auth.GeneratedTokenVerifiesAsWritten | src/lib/auth.ts:78-154 | as written, a generated token verifies exactly when its payload text has a length not divisible by 3 and it has not expired; it then yields the signed payload, and otherwise fails as undecodable or as expired |
| Auth.UserIdFromToken | src/lib/auth.ts:205-211 | the result is null exactly when the written verification fails or neither `userId` nor `id` is truthy, and is truthy otherwise |
| Auth.UserIdOfGeneratedToken | src/lib/auth.ts:205-211 | the id in an unexpired generated token is the first truthy of the caller's `userId` and `id`, or null when its payload text has a length divisible by 3 |
| Auth.EmailCheckMatchesPattern | src/lib/auth.ts:159-162 | the character-level e-mail check accepts exactly the strings matching `^[^\s@]+@[^\s@]+\.[^\s@]+$` |
| Auth.Utf16Length | src/lib/auth.ts:171 | `length` counts between one and two code units per character |
| Auth.ScanFor | src/lib/auth.ts:178-192 | the look-ahead scan finds a match exactly when some character is in the range |
| Auth.IsValidPassword | src/lib/auth.ts:167-200 | a password is valid exactly when it has 8 code units, a lower-case letter, an upper-case letter and a digit; otherwise the message names the first failing check |
| Auth.SupplementaryCharactersCountTwice | src/lib/auth.ts:171 | a character beyond U+FFFF counts twice toward the minimum length |
| Middleware.SomePrefix | src/middleware.ts:15-16 | `some(startsWith)` holds exactly when some listed prefix starts the path |
| Middleware.Decide | src/middleware.ts:18-58 | the guard redirects only to /login or /dashboard, clears the cookie only for a token that was sent and failed, sends only signed-in users to /dashboard, and lets a protected page through only for a signed-in user |
| Middleware.DecisionTable | src/middleware.ts:18-58 | a protected page passes exactly for a user whose token verifies as written, else goes to /login, clearing the cookie exactly when a token was present; a public page sends such a user to /dashboard; others pass |
| Middleware.GeneratedTokenAtGuard | src/middleware.ts:18-41 | a fresh token opens a protected page unless its payload text has a length divisible by 3, when the guard redirects to /login and clears the cookie |
| Middleware.ProtectedPublicDisjoint | src/middleware.ts:12-16 | no path is both protected and public |
| Middleware.PrefixNotSegment | src/middleware.ts:15-16 | matching is by prefix: /studentsarchive is protected and /login-help is public |
| Middleware.Route | src/middleware.ts:61-65 | paths outside the matcher never reach the guard |
| Middleware.ProtectedPagesGuarded | src/middleware.ts:61-65 | every protected page is inside the matcher, so without a token it goes to /login, whatever the primitives and the clock |
| Middleware.MatcherQuirks | src/middleware.ts:63 | the excluded words are prefixes: /apiary and /favicon-ico are not guarded |
| Register.Check | src/app/api/auth/register/route.ts:21-79 | with the strength guard as intended: an accepted form has a trimmed name of 2 or more code units, a valid lower-cased e-mail, a valid matching password and an unused e-mail; failures are 400, 409 or 500 |
| Register.CheckAsWritten | src/app/api/auth/register/route.ts:21-79 | as written: an accepted form has a trimmed name of 2 or more code units, a valid lower-cased e-mail, a non-empty password equal to its confirmation and an unused e-mail; failures are 400, 409 or 500 |
| Register.ValidateOutcome | src/app/api/auth/register/route.ts:21-79 | whichever strength test runs, an accepted form passed it and every other check, and a refusal is a 400, 409 or 500 |
| Register.AsWrittenDiffersOnlyOnStrength | src/app/api/auth/register/route.ts:42-51 | the written and intended chains differ only where the intended one refuses a weak password |
| Register.AsWrittenAcceptsWeakPassword | src/app/api/auth/register/route.ts:42 | the password "abc" passes the written chain and is refused by the intended one |
| Register.AsWrittenSkipsStrength | src/app/api/auth/register/route.ts:42 | as written, a well-formed form with matching passwords and a new e-mail is accepted whatever the password's strength |
| Register.RejectsWeakPassword | src/app/api/auth/register/route.ts:42-51 | a weak password in a form that passes the earlier checks gets the strength message |
| Register.MissingFieldFirst | src/app/api/auth/register/route.ts:21-26 | a missing field is reported before every later problem |
| Register.RegisteredIsFound | src/app/api/auth/register/route.ts:61-79 | after registration, looking up the lower-cased e-mail finds the new teacher |
| Register.SecondRegistrationConflicts | src/app/api/auth/register/route.ts:61-70 | registering again with the same e-mail in any letter case is a 409 |
| Register.ConflictOnTakenEmail | src/app/api/auth/register/route.ts:61-70 | a well-formed form with matching passwords whose lower-cased e-mail is taken is a 409, as written and, for a strong password, as intended |
| Register.PostRegister | src/app/api/auth/register/route.ts:14-100 | runs the written checks: on failure the teachers table is unchanged; on success it gains exactly the new teacher with the hashed password |
| Login.Login | src/app/api/auth/login/route.ts:22-92 | a missing e-mail or password is a 400, an invalid e-mail a 400, other failures 401 or 500; a success carries the stored teacher with the lower-cased e-mail whose hash matches, a token generated for it, and a cookie that lives as long as the token |
| Login.IdenticalFailures | src/app/api/auth/login/route.ts:43-60 | an unknown e-mail and a wrong password get the same 401 answer |
| Login.LoginTokenVerifies | src/app/api/auth/login/route.ts:65-92 | the login token verifies as written until it expires unless its payload text has a length divisible by 3, names the teacher's id, and its lifetime equals the cookie's |
| Login.RegisterThenLogin | src/app/api/auth/login/route.ts:22-92 | a teacher who has just registered can sign in with the same e-mail and password |
| StudentsApi.PrefixPattern | src/app/api/students/route.ts:17 | a plain text followed by `%` matches exactly the names that start with it |
| StudentsApi.LeadingPercent | src/app/api/students/route.ts:17 | a leading `%` lets the rest of the pattern match any suffix |
| StudentsApi.ContainsPattern | src/app/api/students/route.ts:17 | `%t%` with a plain `t` matches exactly the names containing `t` |
| StudentsApi.PlainSearchIsSubstring | src/app/api/students/route.ts:17-31 | for a search without `%`, `_` or backslash the name filter is a case-insensitive substring test |
| StudentsApi.UnderscoreMatchesAnyName | src/app/api/students/route.ts:31 | the search `_` matches every name with at least one character and not the empty name |
| StudentsApi.SearchTerm | src/app/api/students/route.ts:13-27 | a missing or blank search means no name filter; otherwise the trimmed term is used |
| StudentsApi.WhereMembers | src/app/api/students/route.ts:15-33 | a student is kept exactly when it is stored and passes the filter |
| StudentsApi.WhereCounts | src/app/api/students/route.ts:15-33 | each kept student appears as often as it is stored, each other one not at all |
| StudentsApi.WhereAppend | src/app/students/page.tsx:35-38 | filtering keeps the order |
| StudentsApi.WhereIdempotent | src/app/students/page.tsx:73 | filtering twice by the same test is filtering once |
| StudentsApi.SortByName | src/app/api/students/route.ts:18 | `ORDER BY name ASC` returns the same students sorted by name |
| StudentsApi.GetMeaning | src/app/api/students/route.ts:13-40 | the four branches return exactly the students passing every filter in force, as often as stored, sorted by name |
| StudentsApi.NoFilterListsAll | src/app/api/students/route.ts:34-39 | without filters the whole roster comes back |
| StudentsApi.OptionalText | src/app/api/students/route.ts:69 | `value?.trim() \|\| null` is null for a missing or blank value, the trimmed text otherwise, and throws on a non-string |
| StudentsApi.CheckCreate | src/app/api/students/route.ts:60-71 | a missing name or grade is a 400; a body is created exactly when name and grade are non-empty strings and address and contact are missing, null or strings; a created student has the trimmed fields |
| StudentsApi.BlankNameIsStored | src/app/api/students/route.ts:60-69 | a name of only white space passes the required check and is stored empty |
| StudentsApi.Post | src/app/api/students/route.ts:55-85 | a rejected body writes nothing; an accepted one appends exactly one new student |
| StudentsPage.FilteredStudents | src/app/students/page.tsx:35-38 | a student is shown exactly when its lower-cased name or grade contains the lower-cased term |
| StudentsPage.FilterKeepsOrder | src/app/students/page.tsx:35-38 | the filter keeps the list order |
| StudentsPage.EmptyTermShowsAll | src/app/students/page.tsx:35-38 | an empty term shows everyone |
| StudentsPage.EditedList | src/app/students/page.tsx:63-67 | an edit overwrites the fields of the entries with the edited id and keeps their id; other entries and the length stay |
| StudentsPage.EditIdempotent | src/app/students/page.tsx:63-67 | submitting the same edit twice changes nothing more |
| StudentsPage.WithoutId | src/app/students/page.tsx:73 | a delete keeps exactly the students with another id |
| StudentsPage.DeleteUndoesAdd | src/app/students/page.tsx:73 | deleting a just-added student with a fresh id restores the list |
| StudentsPage.DeleteIdempotent | src/app/students/page.tsx:73 | deleting the same id twice is deleting it once |
| StudentsPage.Page.constructor | src/app/students/page.tsx:17-33 | the screen starts with no students, no selection and the form closed |
| StudentsPage.Page.Load | src/app/students/page.tsx:18-29 | a successful load replaces the list; a failed one keeps it |
| StudentsPage.Page.AddStudent | src/app/students/page.tsx:47-52 | a successful add appends the created student; a failed one leaves the list unchanged |
| StudentsPage.Page.OpenEditForm | src/app/students/page.tsx:77-80 | selects the student and opens the form |
| StudentsPage.Page.CloseForm | src/app/students/page.tsx:82-85 | closes the form and drops the selection |
| StudentsPage.Page.EditStudent | src/app/students/page.tsx:61-69 | with nothing selected nothing happens; otherwise the selected student's entries are edited and the selection is cleared |
| StudentsPage.Page.DeleteStudent | src/app/students/page.tsx:71-75 | a confirmed delete removes the students with the id; an unconfirmed one changes nothing |

## Left out

- Output, logging, `alert` and the React rendering are left out. The `fetch` calls become parameters carrying their outcome.
- The clock (`new Date()`, `Date.now()`) is a parameter. The dashboard assumes today's time of day is after midnight when it compares with the first of the month.
- JSON encoding and parsing, HMAC-SHA-256 and bcrypt are parameters. Nothing is assumed about them beyond what each lemma requires.
- `Text.ToLower` lower-cases ASCII letters only. JavaScript's `toLowerCase` and PostgreSQL's `ILIKE` lower-case all of Unicode.
- `ORDER BY name` is code-point order; the database's locale collation is left out. PostgreSQL fixes no order among equal names; `StudentsApi.SortByName` puts the later-stored of two equal names first, and no property depends on that order.
- The order of the attendance query's rows (`ORDER BY a.date DESC, s.name ASC`) is left out: `AttendanceApi.Get` returns the set of row keys.
- The non-month daily queries (`ORDER BY ... LIMIT 30`) are left out. Their grouped rows are an input of `DashboardApi.Get`.
- Percentages are exact rational values rounded to tenths. The double-precision arithmetic behind `toFixed(1)` and `Math.round` is left out.
- DashboardApi.Get: the `month` parameter arrives already split into integers. A month outside 1..12, or a year before 1, is the failure of the `month + '-01'` cast.
- The attendance screen's record dates arrive already read into local calendar fields, or `None` for a date the browser cannot parse. The time zone is left out.
- AttendancePage.AttendanceView.FinishToggle: it requires the toggled cell to still exist. The screen's asynchronous updates between the click and the answer are left out.
- AttendanceApi.ValidatePost: the browser's `Date` parser is a predicate parameter.
- AttendanceApi: student ids that are strings are not cast to numbers; any non-number id makes the upsert fail.
- AttendanceBulk.EntryRow: a `student_id` that is a string is not cast to a number; any id that is not a number makes that entry's insert fail. A `present` that is not a boolean counts as a failed insert. PostgreSQL would cast some text values such as `'t'`. A missing or null `present` is sent as SQL NULL, which the nullable `present` column (src/lib/db.ts:31) accepts; the source saves and returns that row, the model drops it.
- Store.Database.InsertStudent: never fails. The `VARCHAR(255)`, `VARCHAR(50)` and `VARCHAR(100)` limits on name, grade and contact (src/lib/db.ts:16-19) make a longer value a 500 in the source; they are left out.
- AttendanceBulk: a null element aborts the batch with a 500, and the rows written before it stay.
- DashboardPage.NumberOrZero reads only integer strings. Fractions, exponents and hexadecimal text in `Number()` are left out.
- Calendar.ReadDate accepts only `YYYY-MM-DD` text with a year of 1 or later. PostgreSQL accepts more date spellings.
- Auth: a `JSON.parse` result that is not an object counts as a failure. `IsExpired` looks only at a numeric `exp`.
- Auth.VerifyToken and Register.Check are the corrected halves of the two findings below; the middleware, the user-id lookup, login and registration use the written `VerifyTokenAsWritten` and `CheckAsWritten`.
- Register: `JsValue.Object` stands for every object and array, and its `String()` is taken to have no `@`. `String()` of an array is the text of its elements, so the e-mail `["a@b.co"]` passes `isValidEmail`, and `email.toLowerCase()` then throws inside the handler's `try` (src/app/api/auth/register/route.ts:35, 62), giving a 500. For that input the model answers 400 `InvalidEmail`.
- Login.Login: an array e-mail such as `["a@b.co"]` passes `isValidEmail` in the source, and `email.toLowerCase()` then throws (src/app/api/auth/login/route.ts:29, 40), giving a 500. The model, which has no array value, answers 400 `InvalidEmail`, and its ensures states that 400.
- AttendanceApi.ValidatePost: an array date such as `["2024-07-01"]` is turned into its text by the date pattern and by `new Date(date + 'T00:00:00.000Z')`, so it passes both guards (src/app/api/attendance/route.ts:135-147). The insert's `::date` cast then fails (line 155), giving a 500. The model has no array value and answers 400 `BadDateFormat`.
- DashboardPage.NumberOrZero: `Number()` of a one-element array is the number of its element, so `Number([5])` is 5. The model gives 0 for every object and array.
- Register: two objects compared with `===` are never equal. A password that is an array is treated as weak by the intended strength guard.
- Middleware.Excluded: the `.*` of the matcher's pattern does not match line terminators. Paths containing them are left out.
- Login: only the cookie's `maxAge` is modelled. Its `secure`, `httpOnly`, `sameSite` and `path` attributes are left out.
- StudentsPage.Page.EditStudent: the form data is assumed to have no `id` key, as the form's type says.
- StudentsApi: `ILIKE` wildcards in the search are modelled (`%`, `_`, backslash). `StudentsApi.PlainSearchIsSubstring` relates them to plain substring search.
- The database's schema creation (`initDB`), the profile, teachers, `me` and init endpoints, and the settings and login screens are not part of this model.
- Concurrent requests and the atomicity of the upsert are left out.

## Findings

| source | as written | input that shows it | evidently intended | confidence | as-written member | corrected member |
|---|---|---|---|---|---|---|
| src/lib/auth.ts:35 | `base64UrlDecode` appends `4 - len % 4` `=` signs, i.e. four when the length is already a multiple of 4. `atob` strips at most two, so it throws. A token whose payload JSON has a length divisible by 3 therefore never verifies. | "YWJj" (the encoding of "abc") | pad to the next multiple of 4: `(4 - len % 4) % 4` | high; not executed | Base64.AsWrittenRejectsAligned, Base64.AsWrittenCounterexample, Auth.AsWrittenRejectsGenerated, Auth.GeneratedTokenVerifiesAsWritten | Base64.UrlRoundTrip, Auth.GeneratedTokenVerifies |
| src/app/api/auth/register/route.ts:42 | `!isValidPassword(password)` negates the result object, which is always truthy, so the strength check never fires. | the form ("Al", "a@b.co", "abc", "abc") is accepted | reject when `isValidPassword(password).valid` is false | high; not executed | Register.AsWrittenAcceptsWeakPassword, Register.AsWrittenSkipsStrength | Register.RejectsWeakPassword, Register.Check |
