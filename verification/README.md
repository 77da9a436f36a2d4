# TCloud certificate expiry report — a Dafny model

`TCloud.py` asks Tencent Cloud for the account's SSL certificates. For each one it computes
how many whole days are left until `CertEndTime`, prints a table of domain, expiry text and
a countdown label `f"{n}天"`, and mails an HTML copy of that table when some countdown is at
most 60 days. This project models the pure part of that script. The cloud call and the
clock become parameters; the mailer is left out.

The modules follow the script's steps:

- `Results`: `Option` and `Result`, which stand for a raised exception; `Traverse` is a loop that stops at the first exception.
- `Decimal`: ASCII digit strings, `str(n)` for `n >= 0`, and zero padding.
- `Calendar`: the proleptic Gregorian calendar as `datetime` counts it (day ordinals, leap years).
- `Text`: character spans and prefix stripping.
- `Timestamp`: `datetime.strptime(text, "%Y-%m-%d %H:%M:%S")`. It is modelled on the
  regular expressions Python compiles for that format:
  - `%Y` takes exactly four digits.
  - The other fields take one or two digits.
  - `%d` also takes a space followed by one digit.
  - The blank in the format matches any run of whitespace.
  - Text left after the seconds is rejected.
  - Last come the range checks, which raise `ValueError`. A day that does not exist in its month
    (leap years included) or year 0 is refused while `_strptime` builds a `date` to count the
    day of the year. A second of 60 or 61 is refused by the `datetime` constructor.
- `Countdown`: `calculate_countdown`. The expiry is read as UTC and `now` is subtracted. `now` is the
  clock reading in microseconds since 1970-01-01 UTC, which the script takes afresh on every call. The result is normalised as a `timedelta`,
  and its `days` field is returned. That field is the floor of the difference over one day.
- `Label`: the countdown label `f"{n}天"` and its reading `int(label.replace('天', ''))`.
- `HtmlTable`: `generate_html_table`. It also contains a decoder that reads the rows back out of the HTML.
- `Report`: the body of `list_certificates` once the service has answered:
  - the row loop, with one clock reading per certificate;
  - the alert test `any(... <= 60 ...)`;
  - the "no certificates" branch;
  - the two exception handlers, which become notes.

Three things the code does are easy to assume otherwise:

- Every HTML data row carries the same cell style (TCloud.py:116-118). No row is coloured by urgency.
- An empty or missing certificate list prints "no certificate information found" (TCloud.py:99-100).
  No table is printed, not even a header.
- The alert is decided by `any(...)` over the labels read back from the rows (TCloud.py:94), not by a
  separate minimum. `AlertIffMinimumDue` shows the two agree.

## Model

| member | source | states |
|---|---|---|
| Timestamp.Strptime | TCloud.py:40 | Every timestamp the parse accepts is a real UTC date and time: month 1-12, a day that exists in that month (leap years included), hour up to 23, minute and second up to 59 |
| Timestamp.StrptimeOfLayout | TCloud.py:40 | For any digit fields of the accepted widths (the day also as a space and a nonzero digit) and any whitespace between date and time, the parse succeeds exactly when the fields form a real date and time, the seconds have at most two digits and nothing follows. It then returns exactly those field values |
| Timestamp.StrptimeAcceptsExactlyLayouts | TCloud.py:40 | A text parses to `t` exactly when it is laid out as the format prescribes and its fields spell `t`, and `t` is a real date and time. The layout is four year digits, one or two digits for each other field (the day also as a space and a nonzero digit), `-` and `:` separators, and any run of whitespace between date and time |
| Timestamp.StrptimeShape | TCloud.py:40 | Every text the parse accepts has that layout, and the result is exactly what its fields spell |
| Timestamp.SpaceBeforeDayAccepted | TCloud.py:40 | A day written as a space and a nonzero digit (`2024-03- 5 …`) is read exactly like the digit alone |
| Timestamp.ParsedTextIsPlain | TCloud.py:40 | An expiry text the parse accepts holds only digits, separators and whitespace, so it never contains markup |
| Timestamp.StrptimeOfFormat | TCloud.py:40 | A zero-padded `YYYY-MM-DD HH:MM:SS` text parses exactly when its fields are a real date and time. A valid date and time written this way parses back to itself |
| Timestamp.StrptimeAcceptsUnpadded | TCloud.py:40 | Fields written without zero padding (for example `2024-3-5 7:8:9`) are accepted and read as the same date and time |
| Timestamp.UnrealFieldsRejected | TCloud.py:40 | Month 13, day 32, February 30, February 29 of a common year, hour 24 and second 60 are all rejected |
| Timestamp.LeapDayAccepted | TCloud.py:40 | February 29 of a leap year is accepted |
| Timestamp.WrongDateSeparatorRejected | TCloud.py:40 | A text whose fifth character is not `-` fails as a format mismatch |
| Timestamp.TrailingTextRejected | TCloud.py:40 | A valid timestamp followed by one more character is rejected, whether that character is a digit or not |
| Calendar.OrdinalCountsDays | TCloud.py:42 | Consecutive calendar dates have consecutive day numbers, so the date difference counts real days across month, year and leap-day boundaries |
| Countdown.Subtract | TCloud.py:42 | `end_time - current_time` is a normalised `timedelta` that keeps the whole span from the clock reading to the expiry. Its `days` is the floor of that span over one day |
| Countdown.DeltaOf | TCloud.py:42 | The `timedelta` of a difference keeps the whole difference and is in normal form (seconds within a day, microseconds within a second) |
| Countdown.NormalizedUnique | TCloud.py:42-43 | A span has exactly one normal form, so `days` of the difference is well defined |
| Countdown.CalculateCountdown | TCloud.py:36-43 | The countdown exists exactly when the parse succeeds, and a failure carries the parse error. The countdown `c` satisfies `c` days <= expiry − now < `c`+1 days, which makes it the floor |
| Countdown.CountdownInWholeSeconds | TCloud.py:40-43 | With a clock reading in whole seconds, the countdown equals floor((expiry − now) / 86400) |
| Countdown.CountdownSign | TCloud.py:42-43 | The countdown is negative exactly when the certificate has expired. It is zero exactly when less than one day (and not less than zero) is left |
| Countdown.CountdownMonotone | TCloud.py:42-43 | For one clock reading, a later expiry instant never has a smaller countdown |
| Countdown.LaterTimestampNotSmallerCountdown | TCloud.py:40-43 | For one clock reading, a timestamp whose fields are later never has a smaller countdown |
| Decimal.Digits | TCloud.py:89 | `str(n)` for `n >= 0` is all digits, starts with `0` only for zero, and has one digit exactly when `n < 10` |
| Decimal.DigitsRoundTrip | TCloud.py:89-94 | Reading back the decimal digits of a natural number gives that number |
| Decimal.PaddedRoundTrip | TCloud.py:40 | Reading back a zero-padded field gives the number it was made from, when the number fits the width |
| Label.IntToString | TCloud.py:89 | `str(n)` starts with a minus sign exactly when `n` is negative. The rest is digits, with no leading zero except for zero itself |
| Label.CountdownLabel | TCloud.py:89 | A label ends in `天`. Every character is a digit, a minus sign or `天` |
| Label.RemoveAll | TCloud.py:94 | `replace('天', '')` leaves no `天` and keeps every other character that was present |
| Label.ParseInt | TCloud.py:94 | `int(s)` succeeds only on a text of digits with at most a leading sign. A leading minus never gives a positive number, and a text without one never gives a negative number |
| Label.LabelDays | TCloud.py:94 | A countdown text reads back only if it holds a digit and nothing but digits, signs and `天` |
| Label.LabelStripsToNumber | TCloud.py:94 | Removing `天` from a label leaves exactly `str(n)` |
| Label.IntRoundTrip | TCloud.py:94 | `int(str(n)) == n` for every integer, negative ones included |
| Label.LabelRoundTrip | TCloud.py:89-94 | Reading back the label written for any countdown, negative ones included, gives that countdown |
| Label.LabelInjective | TCloud.py:89 | Different countdowns never get the same label |
| Results.Traverse | TCloud.py:86-89 | The loop succeeds exactly when every step succeeds, and then returns one result per element in order. Otherwise it returns the error of the first step that fails, and every step before that one succeeded |
| Report.EvaluateOne | TCloud.py:87-89 | A certificate gives a row exactly when it has an expiry that parses and a domain. The row holds the domain, the expiry text unchanged and a label that reads back as the countdown. A missing `CertEndTime`, a bad timestamp and a missing `Domain` each give their own error, checked in that order |
| Report.BuildRows | TCloud.py:85-89 | Rows are built exactly when every certificate can be evaluated. There is one row per certificate, in the service's order, each evaluated at the clock reading taken for it. Otherwise the error is that of the first certificate that fails |
| Report.RowsOfEvaluable | TCloud.py:86-89 | For evaluable certificates, row `i` is `[Domain, CertEndTime, label of its countdown]`, and its label reads back as that countdown |
| Report.AnyDue | TCloud.py:94 | The alert test is true only when some row's label reads back as at most 60, and false only when every label reads back as more than 60. It fails only when some label does not read back, with that label's `ValueError` |
| Report.AlertIffSomeDue | TCloud.py:94 | On rows whose labels read back, the alert test never fails. It is true exactly when some countdown is at most 60 |
| Report.AlertIffMinimumDue | TCloud.py:94 | Equivalently, the alert is due exactly when the smallest countdown is at most 60 |
| Report.AlertBoundary | TCloud.py:94-98 | One row alerts exactly when its countdown is at most 60: 60 alerts and 61 does not |
| Report.ListCertificates | TCloud.py:84-105 | A failed fetch only logs its message. An empty or missing list prints "no certificates" with no table and no mail. A table is only printed for a listed, non-empty answer and is exactly the rows built from it. A mail is only ever the HTML of the printed table |
| Report.RunAbortsOnBadCertificate | TCloud.py:86-105 | One certificate that cannot be evaluated aborts the run: no table is printed and no mail is sent |
| Report.RunReportsEveryCertificate | TCloud.py:84-98 | When all certificates evaluate, the printed table has one row per certificate in order, each `[Domain, CertEndTime, label]` with the countdown at that certificate's own clock reading. A mail is requested exactly when some of those countdowns is at most 60. Otherwise "no certificate within 60 days" is logged |
| Report.EmailCarriesTable | TCloud.py:94-96 | When no domain holds markup, reading the rows back out of the mailed HTML gives exactly the printed table. Expiry texts need no such condition, because a text the parse accepts never holds markup |
| HtmlTable.GenerateHtmlTable | TCloud.py:107-122 | The HTML starts with the table tag and the one header row of three cells (域名, 证书到期时间, 倒计时), and ends with `</table>` |
| HtmlTable.RowDecodes | TCloud.py:116-118 | One data row is three `<td>` cells holding domain, expiry and countdown verbatim, and it reads back as that row |
| HtmlTable.RowsRoundTrip | TCloud.py:115-118 | The data rows are written one `<tr>` per row in input order, and they read back as the same list |
| HtmlTable.TableRoundTrip | TCloud.py:107-122 | Reading the rows back out of a generated table gives the input rows, as long as no cell text holds markup |
| HtmlTable.MarkupInCellsIsNotEscaped | TCloud.py:116-118 | Cell text is not escaped: a countdown that carries row markup renders exactly like two separate rows |

## Left out

- The Tencent Cloud request (TCloud.py:65-83) is left out. It covers credentials, endpoint, region, `Offset`/`Limit` and `SearchKey`. It is a network call. Its answer, which is the `Certificates` value or the SDK exception message, is the `Response` parameter of `ListCertificates`.
- `send_email` (TCloud.py:45-61) is left out: MIME assembly, SMTP login and sending are I/O. Its own failures are caught and logged inside it, so they never change the run. The model records the HTML body handed to it.
- The environment variables (TCloud.py:28-33) and logging are left out; the log lines are `Note` values.
- `tabulate` console rendering (TCloud.py:91-92) is a third-party formatter. Only the rows passed to it are modelled.
- `datetime.now` is left out. The clock is the `clock` parameter of `BuildRows` and `ListCertificates`: `clock(i)` is the reading, in microseconds, taken while certificate `i` is evaluated. Readings may differ from row to row as in the script, and the model does not assume they are non-decreasing. `CountdownInWholeSeconds` covers a reading in whole seconds.
- Timestamp.Strptime: accepts ASCII digits only, because Unicode decimal digits are not modelled. Python's `\d` also matches other Unicode decimal digits.
- Label.ParseInt: stricter than Python's `int`, because the labels it reads are always produced by `CountdownLabel`. `int` also accepts surrounding whitespace, underscores between digits and non-ASCII digits.
- Report.EvaluateOne: a certificate field is either a string or absent; a JSON `null` or a non-string value cannot be represented. Such a `Domain` is read without error (TCloud.py:89) and printed and mailed as its `str`, for example `None`, and the run goes on. Such a `CertEndTime` makes `strptime` raise `TypeError`, which the catch-all handler logs, ending the run as a missing key does.
- Report.ListCertificates: the catch-all handler's message text (`str(e)`) is not modelled. The note carries the error value instead.
