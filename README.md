# Walima invitation: countdown and calendar file

A Dafny model of the time-keeping core of the wedding-invitation page script
`js/script.js`:

- `createDateInPKT`, which builds the instant at which a Pakistan Standard Time
  (UTC+5) wall clock shows the given fields;
- the live countdown `setupCountdown` / `updateCountdown`, which clamps the
  milliseconds left at zero, floors them to whole seconds, splits them into
  days, hours, minutes and seconds and writes four zero-padded cells;
- `createICSContent` with its `pad` and `toICSDateString` helpers, which writes
  an iCalendar (RFC 5545) object with one VEVENT as fourteen lines joined by CRLF;
- the click handler that `setupCalendarButtons` installs, which dispatches on
  the button's `data-calendar` value: "walima" is the only entry, and any
  other value returns without doing anything.

The project has these modules:

- `Wrappers` holds `Option`.
- `Decimal` models `String(n)`, `padStart` and `pad`, and gives each a
  read-back inverse.
- `EcmaTime` writes out the time-value operations of section 21.4.1 of
  ECMA-262 on integer milliseconds: `Day`, `DayFromYear`, `YearFromTime`,
  `MonthFromTime`, `DateFromTime`, the clock accessors, and `MakeDay`,
  `MakeTime`, `MakeDate`.
- `PktDate` models `createDateInPKT`.
- `Countdown` models the countdown. `CountdownTimer` is a class: its constant
  `target` and its mutable `display` stand for `eventDate` and the
  container's `innerHTML`.
- `Ics` models `createICSContent` and a CRLF splitter, which acts as the
  reader of the file.
- `CalendarButtons` models the click handler and the facts about the
  concrete reception.

The countdown and the calendar entry use different instants:

- The countdown counts to 1 February 2026, 00:00 PKT (`js/script.js:356`).
  That is `20260131T190000Z`.
- The calendar entry runs from 19:00 to 21:00 PKT on the same day. That is
  `20260201T140000Z` to `20260201T160000Z`.

The model keeps both and proves the nineteen-hour gap between them.

Two consequences of the code worth knowing:

- A UTC timestamp `YYYYMMDDTHHMMSSZ` has 16 characters
  (`Ics.ToICSDateStringRoundTrip`).
- The whole seconds left are positive only while at least one full second
  remains: in the last second before the target the display already reads
  `00` everywhere (`Countdown.SecondsLeftPositive`).

## Model

| member | source | states |
|---|---|---|
| Decimal.IntToString | js/script.js:137 | `String(i)` of an integer: '-' before the digits of a negative one; no contract of its own, its properties are stated by `NatToString`, `NatToStringValue`, `FourDigits` and `DigitsRender` |
| Decimal.NatToString | js/script.js:137 | `String(n)` of a count is a non-empty run of digits whose first digit is '0' exactly when the count is zero |
| Decimal.NatToStringValue | js/script.js:137 | reading the digits of `String(n)` back gives `n` |
| Decimal.DigitsRender | js/script.js:137 | a digit string without a superfluous leading zero is `String` of its value, so rendering and reading are inverses |
| Decimal.FourDigits | js/script.js:137 | a year from 1000 to 9999 renders as exactly four digits that read back as the year |
| Decimal.PadStart | js/script.js:370 | `padStart` gives length max(width, length), keeps the string as its suffix and fills only the prefix |
| Decimal.Pad2 | js/script.js:370 | the `pad` helper, `String(n).padStart(2, "0")`; no contract of its own, its properties are stated by `PadLength`, `PadNat`, `PadTwoDigits` and `PadReadBack` |
| Decimal.PadLength | js/script.js:370 | `pad` is a minimum width, never a truncation: it leaves two or more characters alone and puts one '0' before a single character |
| Decimal.PadNat | js/script.js:370 | for a count, `pad` gives digits that read back as the count: "0" and the digit below 10, the full rendering from 10, exactly two characters below 100 |
| Decimal.PadTwoDigits | js/script.js:132 | a field below 100 pads to exactly two digits that read back as the field |
| Decimal.PadReadBack | js/script.js:132 | any two digits, read and padded again, give the same two characters |
| EcmaTime.DayFromYearStep | js/script.js:137 | consecutive years start `DaysInYear` days apart (Gregorian leap rule) |
| EcmaTime.YearFromDay | js/script.js:137 | `getUTCFullYear`: the year found is the one whose span holds the day |
| EcmaTime.YearFromDayUnique | js/script.js:137 | only one year's span holds a day, so the year found is the only answer |
| EcmaTime.MonthFromDayWithinYear | js/script.js:138 | `getUTCMonth`: the month found is the one whose span holds the day of the year |
| EcmaTime.UtcFields | js/script.js:137-143 | the six `getUTC...` readings of an instant, month counted from 1; no contract of its own, its properties are stated by `TimeRoundTrip`, `CalendarFieldsValid` and `ClockFieldsOfTime` |
| EcmaTime.TimeFromFields | js/script.js:348 | the instant `MakeDate(MakeDay(...), MakeTime(...))` of calendar fields, as the parser computes it; no contract of its own, its properties are stated by `FieldsRoundTrip` and `TimeRoundTrip` |
| EcmaTime.CalendarFieldsValid | js/script.js:137-139 | the year, month and date of any instant name an existing day, and they rebuild that instant's day number |
| EcmaTime.ClockFieldsOfTime | js/script.js:141-143 | hours, minutes and seconds of any instant are in range and rebuild it up to its milliseconds |
| EcmaTime.TimeRoundTrip | js/script.js:137-143 | every instant has valid UTC fields, and those fields name the instant truncated to the second |
| EcmaTime.FieldsRoundTrip | js/script.js:348 | the instant built from valid fields reports exactly those fields back |
| PktDate.PktIsoString | js/script.js:343-347 | the `YYYY-MM-DDTHH:MM:SS+05:00` string `createDateInPKT` builds; no contract of its own, its shape and read-back are stated by `PktIsoStringReadsBack` |
| PktDate.CreateDateInPKT | js/script.js:342-349 | the instant of the PKT wall clock: the UTC instant of the fields less five hours; no contract of its own, its meaning is stated by `CreateDateInPKTFields`, `PktStamp`, `LateHourStamp` and `SameDayHours` |
| PktDate.PktIsoStringReadsBack | js/script.js:343-347 | the string handed to the parser has 25 characters, is in `YYYY-MM-DDTHH:MM:SS+05:00` form and carries exactly the given fields |
| PktDate.DayBeforeNumber | js/script.js:347-348 | moving back across midnight lands on a valid day exactly one day number earlier, across month and year ends |
| PktDate.PktToUtcTime | js/script.js:347-348 | the UTC wall clock five hours behind a valid PKT wall clock is valid and names the instant five hours earlier, before and after 05:00 alike |
| PktDate.CreateDateInPKTFields | js/script.js:342-349 | the instant's UTC fields are the PKT fields moved back five hours, borrowing a day before 05:00, and those UTC fields name the instant |
| Countdown.CountdownTarget | js/script.js:356 | `eventDate`, `createDateInPKT(2026, 2, 1, 0, 0, 0)`; no contract of its own, its value is stated by `CountdownTargetStamp` and `CountdownTargetBeforeWalima` |
| Countdown.RemainingMs | js/script.js:360-362 | `diff` after the clamp, typed as a count; no contract of its own, its properties are stated by `ClampAtZero`, `SecondsLeftPositive`, `OneSecondLater` and `RemainingNeverIncreases` |
| Countdown.WholeSeconds | js/script.js:364 | `Math.floor(diff / 1000)` is the number of whole seconds in the remaining milliseconds |
| Countdown.DisplayAt | js/script.js:359-377 | the text `updateCountdown` writes at time `now`: the clamped remainder, floored, split and rendered; no contract of its own, `CountdownTimer.Tick`, the constructor and `ClampAtZero` are stated against it |
| Countdown.ClampAtZero | js/script.js:360-362 | at or after the target, the remaining time is 0 and every cell shows "00", so nothing negative is displayed |
| Countdown.SecondsLeftPositive | js/script.js:360-364 | whole seconds remain if and only if at least one full second is left |
| Countdown.OneSecondLater | js/script.js:359-364 | one second later, the seconds left drop by exactly one, until they reach zero and stay there |
| Countdown.RemainingNeverIncreases | js/script.js:359-364 | the seconds left never increase as time goes on |
| Countdown.Breakdown | js/script.js:365-368 | days, hours, minutes and seconds of a count of seconds; no contract of its own, its properties are stated by `BreakdownRecomposes`, `RecomposeBreaksDown` and `BreakdownExample` |
| Countdown.BreakdownRecomposes | js/script.js:365-368 | the days, hours, minutes and seconds are in range and add back up to the seconds exactly |
| Countdown.RecomposeBreaksDown | js/script.js:365-368 | in-range parts are the breakdown of the seconds they stand for, so the breakdown is the only one |
| Countdown.BreakdownExample | js/script.js:364-370 | 90061 seconds are 1 day, 1 hour, 1 minute and 1 second, each shown as "01" |
| Countdown.Cell | js/script.js:373-376 | one `<span><strong>NN</strong><small>Unit</small></span>` line of the template; no contract of its own, its unambiguity is stated by `CellInjective` |
| Countdown.Render | js/script.js:372-377 | the template literal assigned to `innerHTML`; no contract of its own, its unambiguity is stated by `RenderInjective` and its all-zero form by `ClampAtZero` |
| Countdown.CellInjective | js/script.js:372-377 | equal cells hold equal counts and are followed by equal text |
| Countdown.RenderInjective | js/script.js:370-377 | the markup determines the four counts: two ticks that render the same text showed the same countdown |
| Countdown.CountdownTimer.constructor | js/script.js:352-382 | the target is 1 February 2026, 00:00 PKT, and the display already shows the countdown at start-up |
| Countdown.CountdownTimer.Tick | js/script.js:358-378 | the new markup is the clamped, floored and split time left, rendered; after the target it is all zeros |
| Ics.FieldsToICS | js/script.js:136-145 | the year as `String` writes it, then month, day, 'T', hour, minute, second through `pad`, then 'Z'; no contract of its own, its properties are stated by `FieldsToICSReadsBack`, `ReadICSDateStringWritesBack` and `TimestampNoCr` |
| Ics.ToICSDateString | js/script.js:134-146 | `toICSDateString`: `FieldsToICS` of the instant's UTC fields; no contract of its own, its properties are stated by `ToICSDateStringRoundTrip`, `ReadICSDateStringInstant` and `TimestampSingleLine` |
| Ics.ReadICSDateStringShape | js/script.js:134-146 | anything that reads as a timestamp has 16 characters: eight digits, 'T', six digits, 'Z' |
| Ics.FieldsToICSReadsBack | js/script.js:136-145 | valid fields with a four-digit year are written so that they read back as the same fields |
| Ics.ReadICSDateStringWritesBack | js/script.js:136-145 | a timestamp without a leading zero, read and written again, is the same text |
| Ics.ToICSDateStringRoundTrip | js/script.js:134-146 | for a four-digit UTC year, `toICSDateString` has the 16-character shape and reads back as the UTC fields, which name the instant to the second |
| Ics.ReadICSDateStringInstant | js/script.js:134-146 | a well-formed timestamp that names a real second is the timestamp of that second |
| Ics.TimestampSingleLine | js/script.js:148-150 | a timestamp holds no CRLF |
| Ics.Uid | js/script.js:151 | the clock, '-', the base-36 digits and "@wedding-invitation"; no contract of its own, its single-line property is stated by `UidNoCr` |
| Ics.UidNoCr | js/script.js:151 | an identifier made of the clock, '-', base-36 digits and the fixed domain holds no CRLF |
| Ics.JoinCrlf | js/script.js:168 | `join("\r\n")`; no contract of its own, its inverse is stated by `SplitJoin` |
| Ics.ContentLines | js/script.js:153-167 | the fourteen lines in the script's order; no contract of its own, their structure is stated by `ContentLinesSplit` and `ContentLinesSingle` |
| Ics.CreateICSContent | js/script.js:131-169 | `createICSContent` with the identifier and the creation instant passed in; no contract of its own, its structure is stated by `DocumentStructure` and `WalimaDocument` |
| Ics.SplitJoin | js/script.js:168 | splitting the CRLF-joined lines at CRLF gives the lines back when none holds a CRLF itself |
| Ics.ContentLinesSingle | js/script.js:153-167 | each of the fourteen lines is free of CRLF when the values are |
| Ics.ContentLinesSplit | js/script.js:153-168 | the joined text splits into exactly fourteen lines: begin/end markers in place, each value verbatim after its property name |
| Ics.DocumentStructure | js/script.js:131-169 | split at CRLF, `createICSContent`'s text is the fourteen lines with the three timestamps and the texts verbatim |
| CalendarButtons.WalimaEvent | js/script.js:199-206 | the "walima" case of the switch: title, description, place and `createDateInPKT` of 19:00 and 21:00 PKT on 1 February 2026; no contract of its own, its values are stated by `WalimaStamps`, `WalimaDuration`, `WalimaTextsNoCr`, `WalimaDescriptionNoCr` and `WalimaDocument` |
| CalendarButtons.OnCalendarClick | js/script.js:188-221 | a download happens if and only if the attribute is "walima"; it is `walima-event.ics` with the reception's calendar text; a missing, empty or other value is a no-op |
| CalendarButtons.WalimaTextsNoCr | js/script.js:200-203 | the reception's title and place hold no carriage return |
| CalendarButtons.WalimaDescriptionNoCr | js/script.js:201-202 | the reception's description holds no carriage return |
| CalendarButtons.PktStamp | js/script.js:342-349 | the timestamp of a `createDateInPKT` instant is the timestamp of the PKT fields moved back five hours |
| CalendarButtons.LateHourStamp | js/script.js:342-349 | from 05:00 PKT on, the timestamp shows the same date, five hours earlier |
| CalendarButtons.SameDayHours | js/script.js:342-349 | two PKT wall clocks of one day are as many hours apart as their hours differ |
| CalendarButtons.StampTexts | js/script.js:136-145 | the three UTC field sets of the page are written `20260201T140000Z`, `20260201T160000Z` and `20260131T190000Z` |
| CalendarButtons.WalimaStamps | js/script.js:205-206 | 19:00 PKT on 1 February 2026 is `20260201T140000Z`, and 21:00 PKT is `20260201T160000Z` |
| CalendarButtons.DescriptionLineLength | js/script.js:164 | the reception's `DESCRIPTION:` line is 105 characters long, over the 75 octets of section 3.1 of RFC 5545, and the script does not fold it |
| CalendarButtons.WalimaDuration | js/script.js:205-206 | the reception lasts two hours |
| CalendarButtons.WalimaDocument | js/script.js:198-219 | the reception's file, split at CRLF, is the fourteen lines with its texts verbatim and the two UTC timestamps above |
| CalendarButtons.TargetUtcClock | js/script.js:356 | midnight PKT on 1 February 2026 is 19:00 UTC on 31 January |
| CalendarButtons.CountdownTargetStamp | js/script.js:356 | the countdown's target is written as `20260131T190000Z` |
| CalendarButtons.CountdownTargetBeforeWalima | js/script.js:356 | the countdown reaches zero nineteen hours before the reception starts |

## Left out

- The DOM is not modelled: `getElementById`, `querySelectorAll`, event
  listeners and `innerHTML` as a live element. The container becomes the
  `display` field, and the button becomes its attribute value.
- The branches for a missing countdown container and for a page without
  calendar buttons are not modelled. Both return before anything happens.
- `setInterval` and the `visibilitychange` handler, which calls
  `setupCountdown` again, are not modelled. The model has one timer and a
  `Tick` per call, so timers that pile up are not captured.
- Clock readings and randomness are parameters:
  - `new Date()` in `updateCountdown` is `now`;
  - `new Date()` for DTSTAMP is `stamp`;
  - `Date.now()` and `Math.random().toString(36).slice(2)` are the
    `nowMs` / `randomDigits` of `Uid`, or the whole `uid`.
- `downloadICS` (Blob, object URL, anchor click) is not modelled. The
  handler's result is the `Download` it would receive.
- PktDate.CreateDateInPKT: requires valid fields and a four-digit year. The
  host parser's Invalid Date for other strings, and any leniency of that
  parser, are not modelled. Hour 24, the end-of-day form `T24:00:00` that the
  date-time string format of ECMA-262 also accepts, is excluded. The default
  arguments `minute = 0, second = 0` are not modelled, because `Fields`
  always carries all six values. The script calls it only with six constant
  arguments (lines 205, 206 and 356).
- Ics.ToICSDateStringRoundTrip: stated only for UTC years 1000 to 9999.
  Outside that range `String(year)` is not four characters long, so the
  sixteen-character shape does not hold.
- Numbers are unbounded integers. The double-precision range of a time value
  (±8.64e15 ms) and the rounding of floating point are not modelled. All the
  script's values are small integers.
- RFC 5545 escaping of text values (section 3.3.11) and line folding
  (section 3.1) are not modelled. The script does not perform either, although
  the reception's own file needs folding: its DESCRIPTION line is 105 octets,
  over the 75-octet limit (`CalendarButtons.DescriptionLineLength`). The
  structure lemmas therefore assume that the texts and the identifier hold no
  CRLF, and that is proved for the reception's texts and for identifiers
  built from base-36 digits.
- `setCurrentYear`, the keyboard shortcuts, lazy loading, the responsive
  handlers and the rest of the page script are not part of this model.
- The first `createDateInPKT` and `setupCountdown` (`js/script.js:82-128`)
  are not modelled. The later declarations at lines 342-382 replace them when
  the script loads. The earlier countdown counted to 19:00 PKT and wrote a
  fixed all-zero markup once the target had passed.
