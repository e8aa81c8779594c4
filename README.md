# AttendEase core, modelled in Dafny

AttendEase is a Flask web application where students record, per subject and per day, how
many lectures took place and whether they attended, and see their attendance percentages;
it also sends e-mails (a weekly report, and announcements through a manual script). This
project models the parts of it that compute or write data:

- `App` (app.py). A submitted form is a map from field names to strings. The database is a
  class `Database` whose fields are the subjects, the user accounts and the attendance ledger.
  Its methods are the POST handlers:
  - `MarkAttendance` (`mark_attendance`) walks the subjects and deletes, updates or adds one
    record each for the submitted date.
  - `Dashboard` (`dashboard`) builds one row per subject and totals them.
  - `UpdateSettings` (the subject-target branch of `settings`) rewrites each subject's
    `total_lectures`.
  - `Register` (`register`) runs the registration checks in the handler's order.
- `Models` (models.py). The attendance ledger is a map keyed by (user, subject, date), which
  is the table's unique constraint. `get_user_attendance` and `get_attendance_stats` are
  modelled as written: they COUNT records and those whose `is_present` flag is set.
- `Config` (config.py). The choice of `SQLALCHEMY_DATABASE_URI`:
  - `DATABASE_URL`, falling back to `POSTGRES_URL`;
  - `postgres://` renamed to `postgresql://`;
  - `sslmode=require` added for Neon hosts;
  - SQLite when no URL is set.
- `ManualEmail` (send_manual_email.py):
  - splitting the content file into subject and body;
  - the body's `**bold**` substitution (`re.sub` with a lazy group);
  - the paragraph loop that builds the HTML.
- `WeeklyReport` (email_utils.py), the weekly report's computed parts:
  - the badge colour and the truncated percentage of each subject row;
  - the row-building loop;
  - the header mood tier;
  - the detail lines handed to the summary generator;
  - the rule that the summary box appears only for a non-empty summary.
- `PyText` and `Dates`. The Python library behaviour the above relies on:
  - `str.strip` with Python's whitespace set;
  - `find`, `in`, `startswith`, `replace`, `split` and `join`;
  - `int(s)`, including whitespace, a sign and underscores, and `str(n)`;
  - `datetime.strptime(s, '%Y-%m-%d')` and `date.isoformat()`.
- `Wrappers`: `Option` and `Result`.

Notes on the code as written, which the model follows:

- The statistics in models.py count attendance records and filter on `is_present`. They do
  not add up `lectures_present` / `lectures_total`.
- `mark_attendance` never sets `is_present`. A new record takes the column default, true, and
  an update leaves the flag as it was. So a subject marked "absent" still counts as one
  attended day (`App.AbsentMarkCountsAsAttended`).
- models.py as given declares neither the `lectures_total` / `lectures_present` columns nor
  `User.name`, which app.py writes. The model keeps them as record fields.

Percentages are exact rationals. `round(x, 1)` is rounding half to even in tenths, and
`int(a / t * 100)` is truncation toward zero.

## Model

| member | source | states |
|---|---|---|
| App.Database.MarkAttendance | app.py:255-308 | The ledger after a POST is the old ledger with each subject's write applied in subject order at the submitted date; the subjects are untouched and the invariant holds. |
| App.Database.WriteMark | app.py:282-304 | One subject's write: a count of 0 deletes any record at the key, an existing record gets both lecture counts overwritten, otherwise a new record is added. |
| App.MarkOne | app.py:288-304 | A count of 0 leaves no record at the key. Otherwise the record has the new counts, and its `is_present` flag is true for a new record or kept for an existing one. Every other key is unchanged. |
| App.MarkSubject | app.py:282-304 | No contract of its own: one subject's write at its (user, subject, date) key; App.MarkSubjectTwice and App.ZeroDeletes state its effect. |
| App.ApplyMarks | app.py:262-304 | No contract of its own: the subjects' writes applied in order; App.ApplyMarksAt, App.ApplyMarksElsewhere and App.ApplyMarksIdempotent state its effect. |
| App.SubmittedDate | app.py:256-260 | The date is the parsed `date` field when it parses, and today when the field is missing or does not parse; it is always a valid date. |
| App.ParsedLectures | app.py:264-273 | A missing `lectures_X` field gives 0; a field `int()` reads as v gives v (whitespace, a sign and underscores included); a field `int()` refuses gives 0. |
| App.PresentCount | app.py:277-280 | The present count is the whole count for status "present", 0 for anything else, and nothing in between. |
| App.MarkOf | app.py:262-280 | The decoded mark of a subject is all or nothing: its present count is either 0 or its whole count, and 0 when no lecture was given. |
| App.MissingStatusIsPresent | app.py:268-280 | A subject without a status field counts every lecture as attended; any status other than exactly "present" counts none; the count is whole exactly for "present" or when no lecture was given. |
| App.StatusOf | app.py:268 | No contract of its own: the status field, "present" when missing; App.MissingStatusIsPresent states what that default means. |
| App.NonNumericLecturesAreZero | app.py:270-273 | A count field with no digit in it is read as 0, which is `int()` raising `ValueError`. |
| App.DigitLecturesAreRead | app.py:270-271 | A count field of decimal digits is read as its value. |
| App.NegativeLecturesAreKept | app.py:270-288 | A negative count such as "-3" is not 0, so it is written to the ledger as-is. |
| App.LedgerExtensionality | models.py:79-80 | Two ledgers with the same record at every key are equal. |
| App.ApplyMarksPrefix | app.py:262 | Applying the first i+1 marks is applying the first i and then mark i. |
| App.ZeroDeletes | app.py:288-291 | A count of 0 on an existing record removes it, and the ledger shrinks by one. |
| App.FirstMarkAddsOne | app.py:296-304 | A non-zero count on a fresh key adds exactly one record. |
| App.RemarkOverwrites | app.py:293-295 | Two non-zero writes to the same key leave the record count unchanged and leave what the second write alone would leave. |
| App.ApplyMarksElsewhere | app.py:282-286 | Records of other users, other dates or subjects not in the subject list are unchanged. |
| App.ApplyMarksAt | app.py:262-304 | With distinct subject ids, the record at subject i is what that subject's write alone leaves. |
| App.MarkSubjectTwice | app.py:288-304 | A one-subject write's result at its key depends only on the record there before; writing twice equals writing once. |
| App.ApplyMarksTwiceAt | app.py:262-304 | Re-submitting the same form leaves every written record as the first submission left it. |
| App.ApplyMarksIdempotent | app.py:255-308 | Submitting the same form twice for the same user and day leaves the same ledger as submitting it once. |
| App.MarkOneKeepsFlags | app.py:293-304 | If every record's `is_present` flag is set, it stays set after one write. |
| App.ApplyMarksKeepsFlags | app.py:262-304 | If every record's `is_present` flag is set, it stays set after a whole submission. |
| App.MarkedLedgerShowsFullAttendance | app.py:262-304 | On a ledger written only by this handler, every subject's attended count equals its marked count, and its percentage is 100.0 once anything is marked. |
| App.AbsentMarkCountsAsAttended | app.py:277-304 | A subject marked absent for 3 lectures gets the record (flag true, 3, 0) and counts as 1 attended out of 1 marked. |
| App.Ids | app.py:219 | The subject ids, in subject order. |
| App.MarkIds | app.py:262-265 | The subject ids of the decoded marks, in order. |
| App.UniqueIdsDistinct | models.py:44 | Subject ids are primary keys, so the id list has no repeats. |
| App.FormMarksIds | app.py:262-265 | The decoded marks carry the subjects' ids in subject order. |
| App.NormalisedTotal | app.py:376-384 | The new target is at least 1. A missing field keeps the current value when it is at least 1, else 40. A field `int()` reads as at least 1 gives that value. A field that does not parse, or is below 1, gives 40. |
| App.ResubmittedTotalKept | app.py:376-384 | Submitting a target n >= 1 as its decimal text sets exactly n. |
| App.NormalisedTotalIdempotent | app.py:376-384 | Re-submitting the target the page now shows leaves it unchanged. |
| App.FormTotals | app.py:376-384 | One normalised target per subject, each at least 1. |
| App.Retargeted | app.py:384 | Each subject keeps its id and name and takes the new target. |
| App.RetargetAll | app.py:376-384 | The loop over subjects gives every subject its normalised target. |
| App.RetargetedKeepsIds | app.py:376-384 | Changing targets keeps subject ids unique. |
| App.Database.UpdateSettings | app.py:354-384 | A form with `current_password` leaves the subjects alone. Any other form retargets every subject. The invariant holds. |
| App.AsciiLower | app.py:65 | `lower()` on ASCII: the same length, each upper-case letter mapped to its lower-case letter and everything else kept, so no upper-case ASCII letter remains. |
| App.AsciiLowerIdempotent | app.py:65 | Lower-casing an address twice is lower-casing it once. |
| App.AsciiLowerIgnoresCase | app.py:65 | Two addresses that differ only in the case of ASCII letters lower-case to the same text, so the e-mail check at line 85 treats them as one. |
| App.FormName | app.py:63 | No contract of its own: the stripped `name` field, "" when missing. |
| App.FormUsername | app.py:64 | No contract of its own: the stripped `username` (ERP number) field, "" when missing. |
| App.FormEmail | app.py:65 | No contract of its own: the stripped, lower-cased `email` field, "" when missing. |
| App.FormPassword | app.py:66 | No contract of its own: the `password` field unstripped, "" when missing. |
| App.UsernameTaken | app.py:81 | No contract of its own: some account has this ERP number; App.RegistrationErrorOrder and App.SecondRegistrationRefused use it. |
| App.EmailTakenBy | app.py:85 | No contract of its own: some account has this e-mail address. |
| App.UniqueAccounts | models.py:12-13 | No contract of its own: the unique columns, no two accounts share an ERP number or an e-mail address; App.Database.Register keeps it. |
| App.CheckRegistration | app.py:63-87 | An accepted registration is the stripped name, the stripped ERP number and the stripped, lower-cased e-mail address, and neither the ERP number nor the e-mail address is taken. |
| App.CheckFields | app.py:69-89 | The checks on cleaned values: an accepted account is exactly those values and is not a duplicate. |
| App.RegistrationAccepted | app.py:63-89 | Accepted if and only if all four fields are non-empty, the passwords agree, the password has at least 6 characters and neither the ERP number nor the e-mail address is registered. |
| App.RegistrationErrorOrder | app.py:69-87 | Each refusal is given exactly when its own check fails and every earlier one passes: missing field, password mismatch, password too short, ERP number taken, e-mail address taken. |
| App.Filled | app.py:69 | No contract of its own: all four stripped fields are non-empty, the first check of the handler. |
| App.AppendKeepsUnique | models.py:12-13 | Adding an account with a new ERP number and e-mail address keeps both columns unique. |
| App.RegistrationKeepsUnique | app.py:81-92 | An accepted registration keeps accounts unique. |
| App.SecondRegistrationRefused | app.py:81-83 | Registering the same form a second time is refused with "ERP number already registered". |
| App.Database.Register | app.py:63-92 | The result is the checks' verdict. An accepted account is appended; a refusal leaves the accounts unchanged. The invariant holds. |
| App.RowFor | app.py:220-235 | A dashboard row has the subject's id, name and statistics, and is marked today exactly when a record exists for today; it then shows that record's present and total counts, and 0 and 0 without one. |
| App.Database.Dashboard | app.py:219-244 | One row per subject. The totals are the sums of attended and marked counts over the subjects, attended never exceeds marked, and the overall percentage is their rounded ratio (at most 100.0). When every record belongs to a listed subject, the totals equal the user's overall counts. |
| App.Database.constructor | models.py:41-46 | A fresh database holds the given subjects, no accounts and no attendance. |
| Models.RoundHalfEvenIsNearest | models.py:38 | The rounded value is within one half of the exact quotient, and is even on a tie. |
| Models.RoundHalfEven | models.py:38 | No contract of its own: `round()` to an integer, ties to even; Models.RoundHalfEvenIsNearest states it. |
| Models.PercentTenths | models.py:55-65 | The percentage in tenths is the value nearest to 1000 * part / whole, even on a tie, which is `round(part / whole * 100, 1)` on exact rationals. It is 0 for an empty whole or an empty part, at most 100.0 when part <= whole, and exactly 100.0 when everything is present. |
| Models.RoundedBounds | models.py:37-38 | The rounding keeps 0 at 0, a whole at 100.0, and anything in range at most 100.0. |
| Models.PresentKeys | models.py:54 | The present records of a subject are among its marked records. |
| Models.MarkedKeys | models.py:53 | No contract of its own: the records of a user in a subject, the rows `count()` counts. |
| Models.SubjectAttendance | models.py:51-66 | Attended and marked are counts of records, attended <= marked. Remaining is max(0, target - marked). The percentage is the rounded ratio of attended to marked (at most 100.0, and 0 with nothing marked). |
| Models.UserPresentKeys | models.py:31-35 | The present records are among the counted records. |
| Models.UserKeys | models.py:30-34 | No contract of its own: the records counted for the total, one subject's when an id is given and truthy, all of the user's otherwise. |
| Models.FiltersBySubject | models.py:30 | No contract of its own: Python truthiness of the subject id; Models.ZeroSubjectIdMeansAll states its effect. |
| Models.AttendanceStats | models.py:26-38 | Total and present are record counts, present <= total. The percentage is the rounded ratio of present to total (at most 100.0, and 0 with no records). |
| Models.ZeroSubjectIdMeansAll | models.py:30 | A subject id of 0 is falsy, so it counts across all subjects, the same as no id. |
| Models.NewRecordCountsOnce | models.py:53-54 | A new record adds one to its subject's marked count, and one to attended exactly when its flag is set. |
| Models.AddedKeyMarked | models.py:53 | A new record joins its subject's marked set. |
| Models.AddedKeyPresent | models.py:54 | A new record joins its subject's present set exactly when its flag is set. |
| Models.AllFlaggedMeansFullAttendance | models.py:53-55 | When every record's flag is set, attended equals marked, and the percentage is 100.0 once anything is marked. |
| Models.AcrossPrefix | app.py:237-238 | The running totals grow by each subject's counts. |
| Models.MarkedAcross | app.py:238 | No contract of its own: the running `total_classes` sum over the subjects; Models.MarkedAcrossIsUnion states it. |
| Models.PresentAcross | app.py:237 | No contract of its own: the running `total_attended` sum; Models.PresentAcrossIsUnion and Models.PresentAcrossAtMost state it. |
| Models.KeysInSnoc | app.py:237-238 | A new subject's records are disjoint from the earlier ones, and the union grows by them. |
| Models.PresentKeysInSnoc | app.py:237-238 | The same for present records. |
| Models.MarkedAcrossIsUnion | app.py:238 | With distinct ids, the summed marked counts are the size of the union of the subjects' records. |
| Models.PresentAcrossIsUnion | app.py:237 | With distinct ids, the summed attended counts are the size of the union of the subjects' present records. |
| Models.PresentAcrossAtMost | app.py:237-238 | The summed attended count never exceeds the summed marked count. |
| Models.SubjectTotalsMatchUserTotals | models.py:34-35 | When every record belongs to a listed subject, the dashboard totals equal `get_attendance_stats()` without a subject. |
| Config.RenameScheme | config.py:13-14 | A `postgres://` prefix becomes `postgresql://` with the rest kept; any other URL is unchanged. |
| Config.Truthy | config.py:10 | No contract of its own: Python truthiness of an optional string, present and non-empty. |
| Config.QueryJoiner | config.py:18 | No contract of its own: "&" when a "?" is present, "?" otherwise; Config.RequireSslAppends states it. |
| Config.RequireSsl | config.py:17-19 | No contract of its own: the Neon rewrite; Config.RequireSslAppends and Config.AppendedHasSslMode state it. |
| Config.Normalise | config.py:13-19 | No contract of its own: both rewriting steps in order; Config.NormaliseIdempotent and Config.NeonGetsSslMode state it. |
| Config.RequireSslAppends | config.py:17-19 | Step two only appends, and appends exactly when the URL names "neon" without "sslmode". The suffix is "&sslmode=require" when a '?' is present, otherwise "?sslmode=require". |
| Config.AppendedHasSslMode | config.py:17-19 | A URL that was extended now contains "sslmode". |
| Config.NeonGetsSslMode | config.py:13-19 | Every normalised Neon URL carries "sslmode". |
| Config.RequireSslKeepsScheme | config.py:13-19 | Step two does not bring back a `postgres://` prefix. |
| Config.NormaliseIdempotent | config.py:13-19 | Normalising twice is normalising once. |
| Config.DatabaseUri | config.py:22 | The URI is never empty. |
| Config.UriPrecedence | config.py:10-22 | A truthy `DATABASE_URL` wins, then a truthy `POSTGRES_URL`, both normalised; otherwise the SQLite file. |
| Dates.DaysInMonth | app.py:258 | A month has 28 to 31 days. |
| Dates.IsValid | app.py:258 | No contract of its own: a calendar date `date()` accepts, year 1..9999 and a day that the month has. |
| Dates.MatchMonth | app.py:258 | `%m` reads a month 1..12 from one or two characters. |
| Dates.MatchDay | app.py:258 | `%d` reads a day 1..31 from one or two characters. |
| Dates.ParseIsoDate | app.py:258 | Whatever parses is a valid calendar date. |
| Dates.IsoFormat | app.py:256 | `isoformat()` is ten characters. |
| Dates.Pad2 | app.py:256 | Two digits, zero-padded. |
| Dates.Pad4 | app.py:256 | Four digits, zero-padded. |
| Dates.Pad4Value | app.py:256 | The four-digit year reads back as the year. |
| Dates.ParseIsoFormat | app.py:256-258 | Parsing the ISO form of a valid date gives that date back, so the default `today.isoformat()` parses to today. |
| PyText.SkipForward | app.py:63 | Skips exactly the leading whitespace run. |
| PyText.SkipBackward | app.py:63 | Skips exactly the trailing whitespace run. |
| PyText.StripSet | app.py:63 | Stripping by a character class drops exactly the leading and trailing run of that class; the result is empty exactly when every character is in the class. |
| PyText.Strip | app.py:63-65 | `strip()` never grows the text, leaves no whitespace at either end, and is empty exactly when the text is all whitespace. |
| PyText.StripSetUnchanged | app.py:63 | Text with no whitespace at either end is unchanged by stripping. |
| PyText.StripIdempotent | send_manual_email.py:54-55 | Stripping twice is stripping once. |
| PyText.StripKeepsFirst | send_manual_email.py:44 | Stripping keeps a leading non-whitespace character. |
| PyText.FindFirst | send_manual_email.py:53 | The search finds the first occurrence, or reports none when there is none. |
| PyText.ContainsConcat | config.py:17 | A substring of either part is a substring of the concatenation. |
| PyText.ReplaceFirstOfPrefix | config.py:14 | Replacing the first occurrence of a prefix swaps just that prefix. |
| PyText.ReplaceChar | send_manual_email.py:74 | Replacing a character leaves text without it unchanged and removes it when the replacement lacks it; PyText.ReplaceCharAt states that each occurrence becomes the replacement. |
| PyText.ReplaceCharConcat | send_manual_email.py:74 | Replacing distributes over concatenation. |
| PyText.ReplaceCharAt | send_manual_email.py:74 | Before the first occurrence the text is kept, that occurrence becomes the replacement, and replacing goes on after it. |
| PyText.ReplaceFirst | config.py:14 | No contract of its own: `replace(pat, rep, 1)`; PyText.ReplaceFirstOfPrefix states it for a prefix. |
| PyText.Split | send_manual_email.py:68 | `split(sep)` gives at least one piece; joining the pieces with `sep` rebuilds the text and no piece contains `sep`; every cut is made at the leftmost occurrence remaining (no piece followed by all but the last character of `sep` contains `sep`, so a run of separators is cut from the left), the first piece is the text before the first occurrence, and text without `sep` is one piece. Together these fix the pieces. |
| PyText.CutIsLeftmost | send_manual_email.py:68 | When `sep` first occurs at i, the text before i followed by all but the last character of `sep` does not contain `sep`. |
| PyText.SplitLineFeedRun | send_manual_email.py:68 | `"p\n\n\n\n\nq".split("\n\n")` is `["p", "", "\nq"]`. |
| PyText.Join | email_utils.py:98 | No contract of its own: `sep.join(parts)`; PyText.Split and PyText.SplitJoinChar relate it to splitting. |
| PyText.Contains | config.py:17 | No contract of its own: Python's `in` on strings, some occurrence exists. |
| PyText.StartsWith | config.py:13 | No contract of its own: `startswith`. |
| PyText.SplitJoinChar | email_utils.py:98 | Joining pieces that lack a one-character separator and then splitting at it gives the pieces back. |
| PyText.NatToString | email_utils.py:99 | `str(n)` is digits with no leading zero that read back as n. |
| PyText.IntToString | email_utils.py:99 | No contract of its own: `str(n)` with a minus sign for negatives; PyText.ParseIntToString gives the round trip. |
| PyText.WithoutUnderscores | app.py:271 | Dropping `int()`'s digit separators leaves digits and leaves digit-only text as it was; PyText.WithoutUnderscoresGroup states that only the underscores go. |
| PyText.WithoutUnderscoresConcat | app.py:271 | Dropping underscores distributes over concatenation. |
| PyText.WithoutUnderscoresGroup | app.py:271 | A run of digits, an underscore and the rest lose exactly the underscore: the digits are kept in order. |
| PyText.ParseDigitGroup | app.py:271 | No contract of its own: a digit group with single underscores between digits and its value; PyText.DigitGroupValue states it. |
| PyText.ParseSigned | app.py:271 | No contract of its own: an optional sign before a digit group; PyText.ParseMinus and PyText.ParseSignedDigits state it. |
| PyText.ParseInt | app.py:271 | No contract of its own: `int(s)`, `None` for `ValueError`; PyText.ParseIntToString, PyText.ParseDigits and PyText.ParseIntNeedsDigit state it. |
| PyText.ParseSignedNeedsDigit | app.py:271 | A sign or text not starting with a digit does not parse. |
| PyText.ParseIntNeedsDigit | app.py:271-273 | Text with no digit makes `int()` raise. |
| PyText.DigitGroupValue | app.py:271 | A digit string reads as its value. |
| PyText.ParseDigits | app.py:271 | `int()` of a digit string is its value. |
| PyText.ParseSignedDigits | app.py:271 | An unsigned digit string is read as its value. |
| PyText.ParseNegativeDigits | app.py:271 | `int()` of "-" followed by digits is the negated value. |
| PyText.ParseSignedNegative | app.py:271 | A minus sign before digits negates their value. |
| PyText.ParseMinus | app.py:271 | A minus sign before a digit group negates its value. |
| PyText.ParseIntToString | app.py:379 | `int(str(n)) == n` for every integer. |
| ManualEmail.ReadEmailContent | send_manual_email.py:34-57 | Nothing when the file is missing or only whitespace. Otherwise the subject is non-empty with no line feed, and both subject and body are stripped. |
| ManualEmail.SplitFirstLine | send_manual_email.py:53-55 | Splitting stripped content at its first line feed gives a non-empty one-line subject and a stripped body. |
| ManualEmail.SplitFirstLineAt | send_manual_email.py:53-55 | With the first line feed at n, the subject is the stripped text before it and the body the stripped text after it. |
| ManualEmail.ReadNonBlank | send_manual_email.py:44-55 | Non-blank content is split after stripping the whole text. |
| ManualEmail.ReadWrittenContent | send_manual_email.py:34-57 | A file written as subject, line feed, body, with a stripped one-line subject and a stripped body, reads back as exactly that subject and body. |
| ManualEmail.ReadSubjectOnly | send_manual_email.py:53-55 | A subject line followed by only a line feed reads back with an empty body. |
| ManualEmail.ReadSubjectAndBody | send_manual_email.py:53-55 | A subject line and a non-empty body read back as the stripped subject and the body. |
| ManualEmail.NoLineFeedBefore | send_manual_email.py:53 | The text before the first line feed has no line feed. |
| ManualEmail.FirstLineFeed | send_manual_email.py:53 | In line + "\n" + rest with a one-line `line`, the first line feed is right after `line`. |
| ManualEmail.StripDropsLineFeed | send_manual_email.py:44 | Stripping removes a trailing line feed. |
| ManualEmail.CloseAt | send_manual_email.py:65 | The lazy group's end: the found position is the first `**` with no line feed before it. When none is found, every later `**` has a line feed before it. |
| ManualEmail.BoldSub | send_manual_email.py:65 | No contract of its own: `re.sub(r"\*\*(.*?)\*\*", ...)`, scanning left to right; ManualEmail.BoldSubStrong, ManualEmail.BoldSubPlain and ManualEmail.BoldSubUnclosed state it. |
| ManualEmail.CloseAtFinds | send_manual_email.py:65 | The first `**` after a run without `**` or line feeds is where the group ends. |
| ManualEmail.CloseAtNone | send_manual_email.py:65 | Text without '*' has no group end. |
| ManualEmail.BoldSubPlain | send_manual_email.py:65 | Text without '*' is unchanged by the substitution. |
| ManualEmail.BoldSubPlainPrefix | send_manual_email.py:65 | A prefix without '*' passes through and the substitution continues after it. |
| ManualEmail.BoldSubStrong | send_manual_email.py:65 | `**x**` becomes the styled `<strong>` element around x, followed by the substitution of the rest, whenever x has no line feed, contains no `**` and does not end in `*` (so a lone inner `*` is kept inside the group). |
| ManualEmail.BoldSubInnerStar | send_manual_email.py:65 | `**a*b**` becomes the `<strong>` element around `a*b`. |
| ManualEmail.BoldSubUnclosed | send_manual_email.py:65 | An opening `**` that is never closed is left as it is. |
| ManualEmail.TagsHaveNoLineFeed | send_manual_email.py:74-75 | The paragraph tags and `<br>` contain no line feed. |
| ManualEmail.Paragraph | send_manual_email.py:74-75 | A rendered paragraph has no line feed; a one-line paragraph is just wrapped in the styled `<p>`; ManualEmail.ParagraphLineBreak states that each line feed becomes `<br>`. |
| ManualEmail.ParagraphLineBreak | send_manual_email.py:74-75 | In a paragraph, the text before the first line feed is kept, that line feed becomes `<br>`, and the rest is rendered the same way. |
| ManualEmail.TwoLines | send_manual_email.py:74-75 | A two-line piece becomes one paragraph with the lines joined by `<br>`. |
| ManualEmail.Paragraphs | send_manual_email.py:71-75 | The concatenated paragraphs contain no line feed. |
| ManualEmail.BodyHtml | send_manual_email.py:63-75 | The loop's HTML is the bold substitution, split at blank lines, each piece rendered as a paragraph, concatenated; it has no line feed. |
| ManualEmail.OneParagraph | send_manual_email.py:68-75 | Plain text without a blank line is a single paragraph. |
| ManualEmail.TwoParagraphs | send_manual_email.py:68-75 | Two plain pieces separated by a blank line become two paragraphs. |
| ManualEmail.TwoPieces | send_manual_email.py:72-75 | Two pieces render as their two paragraphs in order. |
| ManualEmail.SplitAtBlankLine | send_manual_email.py:68 | One-line p, blank line, q without a blank line splits into exactly [p, q]. |
| WeeklyReport.BadgeColour | email_utils.py:355 | Every badge colour is a lower-case `#rrggbb` code; WeeklyReport.StatusColour gives which one each row gets. |
| WeeklyReport.StatusColour | email_utils.py:355 | The row colour is #10b981 exactly when everything was attended and there was a lecture, #f59e0b exactly when otherwise something was attended, #ef4444 exactly in the remaining case; the three colours differ. |
| WeeklyReport.BadgeFor | email_utils.py:355 | No contract of its own: the three-way choice of the conditional; WeeklyReport.StatusColour and WeeklyReport.BadgeMatchesPercent state it. |
| WeeklyReport.IntPercent | email_utils.py:364 | 0 without lectures; otherwise the percentage truncated toward zero, bounded on both sides by 100 * attended / total. |
| WeeklyReport.PercentInRange | email_utils.py:364 | For 0 <= attended <= total the percentage is in 0..100, and is 100 exactly when everything was attended. |
| WeeklyReport.PercentBounds | email_utils.py:364 | A truncated ratio of a part to its whole is at most 100, and 100 exactly when part equals whole. |
| WeeklyReport.BadgeMatchesPercent | email_utils.py:355-364 | The badge is green exactly when the row shows 100%, red exactly when nothing was attended (and then shows 0%), and amber rows show under 100%. |
| WeeklyReport.RowsAppend | email_utils.py:353-369 | Building the rows of two lists one after the other is building the rows of both. |
| WeeklyReport.RowHtml | email_utils.py:357-369 | No contract of its own: the row template filled with the name, the fraction, the badge colour and the percentage. |
| WeeklyReport.Rows | email_utils.py:353-369 | No contract of its own: the rendered rows concatenated in order; WeeklyReport.RowsAppend and WeeklyReport.SubjectRows state it. |
| WeeklyReport.SubjectRows | email_utils.py:353-369 | The loop's text is every subject's row, in order. |
| WeeklyReport.AppendRows | email_utils.py:353-369 | The appending loop gives the concatenation of the rendered rows. |
| WeeklyReport.HeaderColour | email_utils.py:372-383 | Every header colour is a lower-case `#rrggbb` code; WeeklyReport.HeaderColourBands gives which one each percentage gets. |
| WeeklyReport.HeaderColourBands | email_utils.py:372-383 | The header is #10b981 exactly from 90, #3b82f6 exactly from 75 below 90, #f59e0b exactly from 60 below 75, #ef4444 exactly below 60; the four colours differ. |
| WeeklyReport.MoodFor | email_utils.py:372-383 | No contract of its own: the tier chosen by the thresholds; WeeklyReport.MoodBands and WeeklyReport.MoodMonotone state it. |
| WeeklyReport.Message | email_utils.py:372-383 | No contract of its own: the header message of each tier, emoji included. |
| WeeklyReport.Rank | email_utils.py:372-383 | The mood tiers are ranked 0..3. |
| WeeklyReport.MoodBands | email_utils.py:372-383 | The tier is "amazing" from 90, "good" from 75 below 90, "watch" from 60 below 75, and "critical" below 60. |
| WeeklyReport.MoodMonotone | email_utils.py:372-383 | A higher weekly percentage never gets a worse tier. |
| WeeklyReport.DetailLine | email_utils.py:99 | A subject's detail line has no line feed when its name has none. |
| WeeklyReport.IntToStringHasNoLineFeed | email_utils.py:99 | A number's text has no line feed. |
| WeeklyReport.SubjectDetails | email_utils.py:98-101 | No subjects give an empty text; WeeklyReport.DetailsOnePerLine states that the text has one line per subject. |
| WeeklyReport.DetailsOnePerLine | email_utils.py:98-101 | When no subject name has a line feed, the joined text splits back into exactly one line per subject. |
| WeeklyReport.AiSummary | email_utils.py:83-128 | No summary without the library, without a key, with an empty key, or when the call fails; with the library, a non-empty key and a reply, the summary is exactly the stripped reply. |
| WeeklyReport.AiBlock | email_utils.py:387-399 | The box is non-empty exactly for a truthy summary, and then contains it. |
| WeeklyReport.AiBlockShown | email_utils.py:386-399 | The box is shown exactly when the library is present, a non-empty key is set, the call returned a reply, and the stripped reply is not empty. |

## Left out

- Flask routing, the login session, `flash`, redirects and template rendering. Each handler
  is modelled from the parsed form to the database change or the computed values; the user
  is a parameter.
- The GET branch of `mark_attendance`, which pre-fills the form from existing records, and
  the GET branches of the other handlers. They only read.
- The password-change branch of `settings`: password hashing is a foreign call. Only its
  effect on the subjects is modelled: they are left alone.
- Password hashing and checking, the reset-token flow, the OTP e-mail function (defined twice
  in email_utils.py), and the welcome e-mail sent after registration.
- The account id assigned by the database and `created_at` time stamps.
- `SECRET_KEY`, the engine pool options and the default subject list.
- The database migration script.
- The chat assistant, its rate limiter, its proposal store and its confirmation flow.
- Network calls to the e-mail service and to the Gemini API. The reply is a parameter of
  `WeeklyReport.AiSummary`, with `None` for a call that raised. The library's presence and
  the environment variables are parameters.
- The send functions' True/False result (email_utils.py:76-81, email_utils.py:498-503). It
  says whether anything in the `try` block raised, the send included: building the rows, the
  header tier, the summary and the page can raise too (a subject entry without `attended`, a
  `None` weekly percentage).
- The HTML templates and CSS around the computed parts:
  - the outer template of `generate_email_html` with the user's name;
  - the rest of the weekly report page;
  - the prompt text sent to the summary generator.
- File reading, `input()` and `print` in the announcement script. A missing file is `None`,
  and the file's text is a parameter.
- Models.PercentTenths: uses exact rational arithmetic. The float division and
  multiplication before `round(x, 1)` can, for some ratios, land on the other side of a
  rounding tie; that last-digit agreement is not modelled.
- WeeklyReport.IntPercent: uses exact rational arithmetic. It does not model a float
  product that falls just below an integer before `int()` truncates it.
- WeeklyReport.MoodFor: takes the weekly percentage as an integer. The source receives it
  from its caller, possibly as a float; the thresholds are the same.
- App.AsciiLower: maps only ASCII letters. Python's `lower()` also maps non-ASCII letters,
  and that is not modelled.
- Dates.ParseIsoDate: reads only ASCII digits. `strptime`'s `%Y` and `%d` patterns use `\d`,
  which also matches other Unicode decimal digits (full-width "２０２４-01-05" is a date in
  Python); such input gives today in the model.
- Dates.MatchDay: the same for a non-ASCII second digit of `[12]\d`.
- PyText.ParseInt: accepts only ASCII digits. `int()` also accepts other Unicode decimal
  digits, and enforces a 4300-digit limit on long inputs; neither is modelled.
- Concurrency and a failing commit: requests are treated as applied one at a time, each as
  a whole, and the single commit of `mark_attendance` (app.py:306) as succeeding. In the
  source that commit can raise and roll back the whole submission, for example when two
  overlapping first submissions for the same user and date both add a record and the second
  meets the unique constraint of models.py:79-80.
- Bounded integers: values are unbounded here. The database columns are SQL integers.
- Models.Subject: `total_lectures` is a nullable column; the model keeps an integer there
  always. A NULL target would make `int(None)` at app.py:379 and the subtraction at
  models.py:58 raise `TypeError`, which is not modelled.
