# Birthday reminder — a verified model of its pure core

The birthday reminder reads a roster of lines such as `张三-2005-4-16-a` or
`Alice-3-15-a-HR`. Each line holds a name, an optional four-digit year, a month,
a day, a calendar type (`a` for the solar calendar, `b` for the lunar calendar)
and, in the local edition, an optional department. Every run works out whose
birthday is today, computes their age where it can, and e-mails a reminder.

There are two editions:

- `birthday_reminder-local.py` accepts four line shapes, tried in a fixed order.
  It formats one label per person and sends a single HTML message to the
  administrator.
- `birthday_reminder.py` accepts two line shapes and skips exact repeats of a line.
  It builds a plain-text message, sends it to the member address and then to the
  administrator, and turns the delivery results into the process exit status.

The model keeps the logic and leaves out the plumbing. The modules are:

- `Options`: the optional value.
- `Text`: Python's `str.strip` with Python's whitespace set, `int()` and `str()`
  on decimal digits, `sep.join`, and character counting.
- `Calendar`: dates, the age rule both editions share, and the lunar-to-solar
  conversion, which is a function-typed parameter that may fail.
- `Roster`: the record, the reader's diagnostics, the calendar tag, the age
  suffix `，N岁` and a reader that recovers the age from a label, the subject line
  and the outgoing message.
- `Patterns`: the four regular expressions. A match is defined independently as
  "groups the sub-patterns accept that spell the line" (`Fits`). The splitter
  `Match` is proved to return such groups, and to return the one with the longest
  name. That is what the greedy `(.+)` with backtracking yields.
- `LocalReminder`: `birthday_reminder-local.py`.
- `Reminder`: `birthday_reminder.py`.
- `Editions`: how the two editions compare on the same records.
- `Scenarios`: worked examples on concrete lines and dates.

A run's inputs are parameters. They are:

- the file's lines as a sequence of strings;
- a `Clock`, which holds today's solar date and today's lunar month and day;
- the lunar-to-solar converter;
- the configured addresses as optional strings;
- the formatted send time as a string;
- in the main edition, one boolean per attempted delivery.

## Model

| member | source | states |
|---|---|---|
| `Text.Strip` | birthday_reminder.py:23-25 | The result is the line with Python whitespace removed at both ends. It has no whitespace at either end, and it is empty exactly when the line is all whitespace, which is when the reader skips it. |
| `Text.DigitsRoundTrip` | birthday_reminder.py:155 | `int()` of the digits `str()` writes for a natural number gives the number back. The age suffix relies on this. |
| `Calendar.YearsSince` | birthday_reminder-local.py:80-84 | The age is the number of anniversaries reached by today. It is the year difference or one less, and exactly the difference on the birthday itself. |
| `Roster.AgeShownRoundTrip` | birthday_reminder-local.py:113-122 | Reading a label's trailing `，N岁` back gives exactly the age computed, negative ones included, and gives nothing when no age was computed. |
| `Roster.Subject` | birthday_reminder.py:172-180 | With one person the subject names them in the fixed template. The fixed multi-member subject is used exactly when two or more people match. |
| `Roster.Select` | birthday_reminder-local.py:175-178 | The selection keeps, in roster order, every record the test accepts and nothing else. A roster whose flagged years are present yields a selection whose flagged years are present. |
| `Roster.SelectAppend` | birthday_reminder.py:148-149 | Selecting from two stretches of records in turn gives the two selections one after the other. |
| `Patterns.Match` | birthday_reminder-local.py:29-37 | A match returns groups that fit the pattern and spell the line. No fit has a longer name, so the name is the greedy `(.+)`. There is no match exactly when nothing fits. |
| `Patterns.CandidateComplete` | birthday_reminder-local.py:30-33 | Any fit is the split found at its name length, so the search misses no fit. |
| `Patterns.FitWithoutDeptIsUnique` | birthday_reminder.py:34-35 | A pattern without a department group fits a line in at most one way. |
| `Patterns.HyphenFreeNameCount` | birthday_reminder-local.py:32-33 | A line that fits a shape without department, with a name without hyphens, has exactly one hyphen per field. |
| `Patterns.FitNeedsHyphens` | birthday_reminder-local.py:30-33 | A fitting line has at least three hyphens, one more with a year, and one more with a department. |
| `Patterns.YearFoldsIntoName` | birthday_reminder.py:34-35 | A line that fits a with-year pattern also fits the same pattern without the year, with the year folded into the name. Only the pattern order keeps the year. |
| `Patterns.ToRecord` | birthday_reminder-local.py:36-65 | Month, day and year are `int()` of their groups, and the calendar type is the group's letter. The name and department are the groups. `has_year` holds iff there is a year, and `has_department` iff there is a department. The type is `a` or `b`, month and day are below 100, and the year is below 10000. |
| `Text.CanonicalDigitsRoundTrip` | birthday_reminder-local.py:59-60 | `str()` of `int()` of digits without a leading zero gives those digits back. |
| `Patterns.ToRecordRoundTrip` | birthday_reminder-local.py:36-65 | For a line whose numbers have no leading zeros, writing the record's month, day, year and type back gives the groups of the line, so the record keeps every field. |
| `LocalReminder.MatchLine` | birthday_reminder-local.py:29-38 | The patterns are tried in the order year+department, department, year, bare. Every earlier pattern fails, the chosen one fits with the longest name, and there is no match iff no pattern fits. |
| `LocalReminder.ParseLine` | birthday_reminder-local.py:36-68 | There is no record exactly when no pattern fits. Otherwise the record is the one built from the chosen match: well formed, with type `a`/`b` and a non-empty name. |
| `LocalReminder.YearShapesKeepYear` | birthday_reminder-local.py:29-50 | A line that fits the with-year pattern but neither department pattern is read with its year. |
| `LocalReminder.ThreeHyphensReadBare` | birthday_reminder-local.py:29-53 | A line with only three hyphens can fit only the bare pattern, and it is read by that pattern. |
| `LocalReminder.ReadBirthdays` | birthday_reminder-local.py:15-70 | Records plus reported lines number the non-blank lines. Every record is well formed, and every reported line is non-empty and fits no pattern. |
| `LocalReminder.ReadBirthdaysSnoc` | birthday_reminder-local.py:23-68 | A blank line leaves no trace. A line no pattern fits is reported and adds no record. Any other line appends its record. |
| `LocalReminder.ReadBirthdaysAppend` | birthday_reminder-local.py:23-68 | Reading two stretches in turn concatenates their records and their reports. A bad line never stops the reader, and records keep input order. |
| `LocalReminder.IsBirthdayToday` | birthday_reminder-local.py:96-105 | A solar record matches when today's month and day are its own. Every other record matches when today's lunar month and day are its own. |
| `LocalReminder.CalculateAge` | birthday_reminder-local.py:72-94 | No year gives no age. A solar record's age counts the anniversaries reached. A lunar record has an age iff the conversion succeeds, and then it counts the anniversaries of the converted date. |
| `LocalReminder.SolarBirthdayAge` | birthday_reminder-local.py:80-84 | On a solar birthday the age is exactly the year difference. |
| `LocalReminder.TodaysBirthdays` | birthday_reminder-local.py:175-178 | Every kept record has its birthday today, every such record is kept, and nothing else is added. |
| `LocalReminder.TodaysBirthdaysAppend` | birthday_reminder-local.py:175-178 | The matches of two stretches are the matches of each, in order. |
| `LocalReminder.FormatDisplay` | birthday_reminder-local.py:107-122 | The `(dept) ` prefix appears only with a non-empty department. The label's age suffix reads back as exactly the computed age. |
| `LocalReminder.ListItemsHasItems` | birthday_reminder-local.py:230-233 | Every label appears in the HTML list. |
| `LocalReminder.ListItemsAppend` | birthday_reminder-local.py:230-233 | The list for two stretches of matches is the list of the first stretch followed by the list of the second, so items keep match order. |
| `LocalReminder.Body` | birthday_reminder-local.py:193-258 | Every label appears in the message. It opens with the multi-member list heading exactly when two or more people match. |
| `LocalReminder.BodyListsInOrder` | birthday_reminder-local.py:226-233 | In the multi-member message, the items of earlier matches come right before those of later ones. |
| `LocalReminder.Notification` | birthday_reminder-local.py:184-276 | A message exists iff someone matches and an administrator address is configured, and it goes to that address. Its subject is the multi-member one iff two or more match, and otherwise names the single label. Its body shows every matched label. |
| `Reminder.MatchLine` | birthday_reminder.py:34-50 | The with-year pattern is tried first, then the one without. The result fits, it is the only fit of its pattern, and there is no match iff neither pattern fits. |
| `Reminder.ParseLine` | birthday_reminder.py:37-61 | There is no record exactly when neither pattern fits. Otherwise the record is the one built from the chosen match: well formed, with no department and type `a`/`b`. |
| `Reminder.YearPatternWins` | birthday_reminder.py:40-50 | A line the with-year pattern accepts is read with its year. |
| `Reminder.UniqueFacts` | birthday_reminder.py:27-31 | The first occurrences have no repeats and hold the same lines as the input. |
| `Reminder.ReadLines` | birthday_reminder.py:18-62 | The seen set is the set of non-blank lines. The records are the parses of the first occurrences, so there are never more records than distinct non-blank lines. |
| `Reminder.RepeatIsDuplicate` | birthday_reminder.py:27-31 | A line read before is reported as a duplicate before any pattern is tried, and it adds no record. |
| `Reminder.ReadBirthdays` | birthday_reminder.py:11-62 | Every record is well formed and has no department. |
| `Reminder.CalculateAge` | birthday_reminder.py:70-100 | No year, or a type other than `a`/`b`, gives no age. A solar record counts the anniversaries reached. A lunar record has an age iff the conversion succeeds, and then it counts from the converted date. |
| `Reminder.IsBirthdayToday` | birthday_reminder.py:102-112 | A record can match only when its type is `a` or `b`. |
| `Reminder.EntryOf` | birthday_reminder.py:150-162 | The entry keeps the name and the calendar tag. Its label's age suffix reads back as exactly the computed age. |
| `Reminder.Matched` | birthday_reminder.py:148-149 | Every kept record has its birthday today, every such record is kept, and nothing else is added. |
| `Reminder.MatchedAppend` | birthday_reminder.py:148-149 | The matches of two stretches are the matches of each, in order. |
| `Reminder.TodaysEntries` | birthday_reminder.py:148-162 | There is one entry per matched record, in order, naming it and showing its computed age. |
| `Reminder.Body` | birthday_reminder.py:171-180 | The message opens with `今天是 ` and the labels joined by `、`, in the order of the entries. Every matched label appears in it. |
| `Reminder.LabelsInMatchOrder` | birthday_reminder.py:178 | The joined labels of one more match are those of the earlier matches, then `、`, then the new label. |
| `Reminder.BodyInMatchOrder` | birthday_reminder.py:178-180 | The message names the earlier matches, then `、`, then a later match. |
| `Reminder.Outbox` | birthday_reminder.py:171-191 | Nothing is sent without a match. Otherwise the member address gets the message first, then the administrator only when configured. Every message carries the same subject and body. |
| `Reminder.ExitAfter` | birthday_reminder.py:169-191 | The status is 0 or 1, and it is 1 iff it started at 1 or some delivery failed. |
| `Reminder.ExitCode` | birthday_reminder.py:169-195 | The exit status is 1 exactly when an attempted delivery failed. It is 0 without a match. Without an administrator it depends only on the member delivery. |
| `Editions.SameMatchRule` | birthday_reminder.py:102-112 | On a solar or lunar record, both editions decide the same way whether today is the birthday. |
| `Editions.OtherTypesDiffer` | birthday_reminder-local.py:101-105 | On any other calendar type, the main edition never matches, while the local edition treats the record as lunar. |
| `Editions.SameAge` | birthday_reminder.py:70-100 | On a solar or lunar record, both editions compute the same age when the two conversion calls give the same result. |
| `Editions.SolarAgeNeedsNoConversion` | birthday_reminder.py:80-87 | On a solar record, both editions compute the same age whatever the conversion calls do. |
| `Editions.ConversionsCanDisagree` | birthday_reminder.py:88-99 | When only the local conversion places a lunar birth date, only the local edition shows an age. |
| `Editions.SameMatches` | birthday_reminder.py:148-149 | On solar and lunar records, both editions pick the same people in the same order. |
| `Editions.SameMatchesOnLocalRoster` | birthday_reminder-local.py:175-178 | On every roster the local reader produces, the main edition's matcher picks the same people as the local one. |
| `Scenarios.BobIsReadWithYear` | birthday_reminder.py:34-49 | `Bob-1990-3-15-a` is read as Bob, 1990-03-15, solar, with a year. |
| `Scenarios.AgeBeforeBirthday` | birthday_reminder.py:82-87 | On 2024-03-01, Bob, born 1990-03-15, is 33 in both editions. |
| `Scenarios.AgeAfterBirthday` | birthday_reminder.py:82-87 | On 2024-03-20 he is 34. |
| `Scenarios.UnconvertibleLunarHasNoAge` | birthday_reminder.py:88-99 | A lunar birth date the converter cannot place gives no age. |
| `Scenarios.AliceIsReadBare` | birthday_reminder-local.py:29-53 | `Alice-3-15-a` is read as a solar 15 March, with no year and no department. |
| `Scenarios.SolarMatchOnTheDay` | birthday_reminder-local.py:101-102 | On 15 March `Alice-3-15-a` matches and `Alice-3-16-a` does not. |
| `Scenarios.LunarMatchOnTheDay` | birthday_reminder.py:109-111 | A lunar 9 January matches exactly when today's lunar date is 9 January, whatever the solar date, in both editions. |
| `Scenarios.SolarDayIsNotLunarDay` | birthday_reminder-local.py:103-105 | On a solar 9 January that is not lunar 9 January, the lunar record does not match. |
| `Scenarios.RepeatedMalformedLine` | birthday_reminder.py:27-61 | A line with fewer than three hyphens, given twice, is reported as malformed and then as a duplicate, and yields no record. |
| `Scenarios.AliceNinetyNine` | birthday_reminder.py:27-61 | `Alice-99` given twice is reported as malformed, then as a duplicate, and yields no record. |

## Lines that fit more than one shape

- `Bob-1990-3-15-a` fits the with-year pattern. It also fits the without-year
  pattern, with the name `Bob-1990` (`Patterns.YearFoldsIntoName`). Only the
  pattern order keeps the year.
- In the local edition the department patterns come before the year pattern. A
  line whose name itself ends in `-M-D-a`, such as `X-1-2-a-1990-3-15-a`, is
  therefore read by the department pattern, with `1990-3-15-a` as the department.
  `LocalReminder.MatchLine` states the order.

## Left out

- Sending mail (`send_email` in both editions): SMTP, the MIME wrapping, and the
  treatment of `SMTPResponseException` as a success. A delivery is one boolean
  outcome per attempt.
- The HTML page around the local message: the head, the CSS, the header, the
  closing line of the list form, and the footer with the send time. Only the
  paragraph or list that carries the labels is modelled.
- Console output. The reader's messages for skipped lines become `Diagnostic`
  values, and the other prints are dropped.
- Loading `email.env`, the environment variables, the file-existence checks, and
  reading the file. The file is its sequence of lines, and the addresses are
  optional strings.
- The clock and the Asia/Shanghai time zone. Today's solar date and lunar month
  and day come in a `Clock`, and the formatted send time is a string.
- The `lunardate` library. Conversion is a parameter that may fail:
  `toSolarDate()` in the local edition and `toSolar()` in the main one. Leap
  months and the solar-to-lunar conversion of today are not modelled. Dates are
  not checked to be real calendar days.
- `Editions.SameAge`: the model does not relate the main edition's `toSolar()` to
  the local edition's `toSolarDate()`. They are two parameters, so the two ages of a
  lunar record agree only when both calls give the same result.
- `\d` matches Unicode decimal digits in Python. The model accepts ASCII digits
  only, and `int()` reads only those.
- `.` is modelled as any character but a newline, and `$` as the end of the line.
  The lines the reader sees are stripped, so they never end in a newline.
- `Reminder.IsBirthdayToday`: its contract says only that a match needs type
  `a` or `b`. The rule for those two types is stated by `Editions.SameMatchRule`
  together with the contract of `LocalReminder.IsBirthdayToday`.
- Each reading of the clock. The scripts call `datetime.now` separately in
  `is_birthday_today`, in `calculate_age` and in `main`, so a run that spans
  midnight could see two different days. The model reads one `Clock` for the
  whole run.
- `Reminder.ReadBirthdays`: its contract states only well-formedness. The
  deduplication and the record count are stated on `Reminder.ReadLines`.
