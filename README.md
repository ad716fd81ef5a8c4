# dayLine: a verified model of the diary client's logic

dayLine is a one-line diary app. Each day the user writes one short line. A scoring service rates the line's mood from 0 to 100. The line is saved, and the scores are shown in a month calendar and a month graph. This project models the parts of the web client that decide things, and proves what they promise:

- **The diary-line validator** (`TextValidation`). It is an ordered chain of seven rejection rules over UTF-16 code units, and the first rule that matches decides. The nested repetition scan is a loop method proved against a run predicate. The model also covers trimming, whitespace removal and the character counter.
- **The two text-input hooks** (`TextInputHook`, `CommonTextInputHook`, sharing `InputSanitizer`). Each is a class whose fields are the hook's state cells (`value`, `touched` and, in the older hook, `attemptedExceedMax`). `HandleChange` and `Reset` update those fields. The error display and `isSubmittable` are functions of them.
- **Calendar arithmetic** (`DateUtils`, with `Decimal` for `String(n)`, `Number(s)` and `padStart`). Days per month and first weekday follow ECMA-262 MakeDay and WeekDay (section 21.4.1). The module also covers date formatting, the "YYYY-MM-DD" reader and the same-month test.
- **The month calendar** (`CalendarView`): the grid of blanks and days, the lookup of a day's entry, the score bands behind the two colour functions, and which cell is selected.
- **The month graph** (`GraphView`): the month's entries filtered and sorted by date, and the linear mapping of day and score onto the SVG plot, in exact rationals.
- **The token store** (`TokenStorage`). `localStorage` is a `map<string, string>` field of the `AuthStorage` class. Its five methods are proved equal to pure functions, and the lemmas state what those functions promise. Each reading of the clock is a parameter; `getStoredAuthTokens` reads it twice, and the model keeps both readings.
- **Submitting a line** (`DiarySubmit`). `handleSubmit` is modelled as the sequence of effects it performs (ad, analysis, save, navigation, alert). The outcomes of the ad, the scoring call and the save are parameters. The model also covers the guard on the scoring response and the mapping from a failure to its alert.

## Model

| member | source | states |
|---|---|---|
| TextValidation.HasCompleteHangul | src/utils/textValidation.ts:12-14 | true exactly when some code unit is a precomposed syllable U+AC00..U+D7A3 |
| TextValidation.HasJamo | src/utils/textValidation.ts:19-20 | true exactly when some code unit is a compatibility jamo U+3131..U+3163 |
| TextValidation.HasOnlyJamoeum | src/utils/textValidation.ts:19-24 | true exactly when some unit is jamo and no unit is a syllable |
| TextValidation.HasLineBreak | src/utils/textValidation.ts:45-47 | true exactly when some unit is `\n` or `\r` |
| TextValidation.RemoveWhitespace | src/utils/textValidation.ts:52-54 | the result is no longer than the input and holds no whitespace unit |
| TextValidation.HasExcessiveRepetition | src/utils/textValidation.ts:29-40 | the nested scan with early return answers true exactly when the text holds a run of 10 equal code units (a run of 9 does not count) |
| TextValidation.SkipLeading | src/utils/textValidation.ts:67-69 | the first index from `i` on that is not whitespace; everything skipped is whitespace |
| TextValidation.SkipTrailing | src/utils/textValidation.ts:67-69 | one past the last non-whitespace index down to `lo`; everything skipped is whitespace |
| TextValidation.Trim | src/utils/textValidation.ts:67-69 | `trim()` is empty exactly for all-whitespace text, and otherwise starts and ends on a non-whitespace unit |
| TextValidation.TrimBounds | src/utils/textValidation.ts:67-69 | the trimmed text is a slice of the input, and everything cut off on either side is whitespace |
| TextValidation.TrimKeepsClass | src/utils/textValidation.ts:67-69 | a class of units containing no whitespace occurs in the trimmed text exactly when it occurs in the raw text |
| TextValidation.MeetsMinLength | src/utils/textValidation.ts:52-55 | at least 3 units once every whitespace unit is removed; TrimKeepsMinLength and ValidateTextPrecedence state where it decides |
| TextValidation.MeetsMaxLength | src/utils/textValidation.ts:60-62 | at most 50 units of the raw text; ValidateTextPrecedence states that it is checked before every content rule, and InputSanitizer.SanitizeShape that a stored value always meets it |
| TextValidation.TrimKeepsMinLength | src/utils/textValidation.ts:52-55 | the length floor gives the same answer on the trimmed and on the raw text |
| TextValidation.TrimKeepsNonWhitespace | src/utils/textValidation.ts:52-54 | removing whitespace after trimming gives the same units as removing it from the raw text |
| TextValidation.RemoveWhitespaceAround | src/utils/textValidation.ts:52-54 | blank text on either side adds nothing once whitespace is removed |
| TextValidation.TrimKeepsContent | src/utils/textValidation.ts:110-125 | the rules applied to the trimmed text see the same non-whitespace units, jamo and syllables as the raw text |
| TextValidation.HangulIsNotWhitespace | src/utils/textValidation.ts:12-24 | no jamo or syllable is whitespace |
| TextValidation.ValidateText | src/utils/textValidation.ts:94-133 | the empty-text rejection happens exactly for empty input; a valid text is non-empty, at most 50 units and free of line breaks |
| TextValidation.ValidateTextPrecedence | src/utils/textValidation.ts:94-133 | for each of the seven results, an if-and-only-if in terms of the raw text: a line break beats the length limit, the limit beats every content rule, "too short" beats the jamo rule, and only the repetition rule depends on trimming |
| TextValidation.CanSubmit | src/utils/textValidation.ts:138-140 | true exactly when all raw checks pass, there are at least 3 non-whitespace units, the text is not jamo-only and the trimmed text holds no run of 10 |
| TextValidation.CharacterCountDisplay | src/utils/textValidation.ts:74-83 | the text is `String(length)` of the raw text (digits, no leading zero) followed by " / 50", and the number before " / 50" reads back as that length |
| TextValidation.Message | src/utils/textValidation.ts:96-129 | the seven rejection messages, with 50 and 3 written by `String`; ValidateTextPrecedence states when each is chosen, and OverLimitIsNoValidatorMessage tells them from the hook's notice |
| TextValidation.ExampleJamoPairIsTooShort | src/utils/textValidation.ts:117-125 | "ㄱㄴ" is rejected as too short, not as jamo-only |
| TextValidation.ExampleJamoOnly | src/utils/textValidation.ts:122-125 | "ㄱㄴㄷ" is rejected as jamo-only |
| TextValidation.ExampleSyllables | src/utils/textValidation.ts:94-133 | "가나다" is valid |
| TextValidation.ExampleBlank | src/utils/textValidation.ts:110-115 | three spaces are rejected as whitespace-only |
| TextValidation.RepeatedExampleShape | src/utils/textValidation.ts:94-125 | "a"×k followed by "이모션" passes every rule before the repetition rule and is its own trim |
| TextValidation.ExampleTenRepeats | src/utils/textValidation.ts:127-130 | "a"×10 + "이모션" is rejected for repetition |
| TextValidation.ExampleNineRepeats | src/utils/textValidation.ts:29-40 | "a"×9 + "이모션" is valid |
| InputSanitizer.RemoveLineBreaks | src/hooks/common/useTextInput.ts:47-48 | the result holds no line break and is no longer than the input |
| InputSanitizer.RemoveLineBreaksUnchanged | src/hooks/common/useTextInput.ts:47-48 | removing line breaks changes the text exactly when it holds one |
| InputSanitizer.RemoveLineBreaksAppend | src/hooks/common/useTextInput.ts:47-48 | removing line breaks from two texts joined is removing them from each, so the kept units stay in order |
| InputSanitizer.RemoveLineBreaksUnit | src/hooks/common/useTextInput.ts:47-48 | a single `\n` or `\r` is removed, and any other single unit is kept |
| InputSanitizer.RemoveLineBreaksExample | src/hooks/useTextInput.ts:58-59 | "a\nb" becomes "ab" |
| InputSanitizer.Sanitize | src/hooks/common/useTextInput.ts:47-53 | line breaks removed, then `slice(0, 50)`; SanitizeShape, SanitizeKeepsCleanInput and SanitizeIdempotent state its contract |
| InputSanitizer.NoLineBreakInPrefix | src/hooks/common/useTextInput.ts:50-53 | a prefix of a line-break-free text is line-break free |
| InputSanitizer.SanitizeShape | src/hooks/common/useTextInput.ts:44-55 | the stored value has no line break, is at most 50 units long, and is the prefix of the line-break-free input of length min(its length, 50) |
| InputSanitizer.SanitizeKeepsCleanInput | src/hooks/useTextInput.ts:56-73 | input without line breaks and within 50 units is stored exactly |
| InputSanitizer.SanitizeIdempotent | src/hooks/common/useTextInput.ts:47-53 | sanitising the stored value again leaves it unchanged |
| InputSanitizer.SanitizedRejection | src/hooks/useTextInput.ts:34-37 | a stored value is never rejected for a line break or for its length |
| TextInputHook.OverLimitIsNoValidatorMessage | src/hooks/useTextInput.ts:48-50 | the over-limit notice differs from every validator message |
| TextInputHook.TextInput.constructor | src/hooks/useTextInput.ts:27-30 | starts with the initial value, untouched, and with no over-limit attempt |
| TextInputHook.TextInput.IsSubmittable | src/hooks/useTextInput.ts:34-37 | exactly the validator's verdict on the value, independent of `touched` |
| TextInputHook.TextInput.ErrorMessage | src/hooks/useTextInput.ts:39-53 | nothing is shown before the first change or for an empty value; a rejected value shows the validator's message; the over-limit notice is shown exactly for a touched, valid, 50-unit value after an attempt to go past the limit |
| TextInputHook.TextInput.HasError | src/hooks/useTextInput.ts:40-53 | true exactly when a message is shown; false when untouched or empty |
| TextInputHook.TextInput.TrimmedValue | src/hooks/useTextInput.ts:32 | `trimText(value)`; Trim and TrimBounds state what it keeps |
| TextInputHook.TextInput.CharacterCount | src/hooks/useTextInput.ts:33 | the counter text of the value; CharacterCountDisplay states its contract |
| TextInputHook.TextInput.Validation | src/hooks/useTextInput.ts:34 | the validator's result on the raw value; ValidateTextPrecedence states its contract |
| TextInputHook.TextInput.HandleChange | src/hooks/useTextInput.ts:55-78 | the value becomes the sanitised input (no line break, at most 50 units, never rejected for those); `touched` becomes true; the over-limit flag is set when the line-break-free input exceeded 50, cleared when the result is shorter than 50, and otherwise kept |
| TextInputHook.TextInput.SetValue | src/hooks/useTextInput.ts:28 | the raw setter stores its argument unchanged and touches nothing else |
| TextInputHook.TextInput.Reset | src/hooks/useTextInput.ts:80-84 | the state returns to ('', false, false) |
| CommonTextInputHook.TextInput.constructor | src/hooks/common/useTextInput.ts:27-29 | starts with the initial value, untouched |
| CommonTextInputHook.TextInput.IsSubmittable | src/hooks/common/useTextInput.ts:33-36 | exactly the validator's verdict on the value, independent of `touched` |
| CommonTextInputHook.TextInput.HasError | src/hooks/common/useTextInput.ts:41-42 | true exactly when touched, the value is non-empty and the validator rejects it |
| CommonTextInputHook.TextInput.ErrorMessage | src/hooks/common/useTextInput.ts:72 | defined exactly when an error is shown, and then the validator's message for the value |
| CommonTextInputHook.TextInput.TrimmedValue | src/hooks/common/useTextInput.ts:31 | `trimText(value)`; Trim and TrimBounds state what it keeps |
| CommonTextInputHook.TextInput.CharacterCount | src/hooks/common/useTextInput.ts:32 | the counter text of the value; CharacterCountDisplay states its contract |
| CommonTextInputHook.TextInput.Validation | src/hooks/common/useTextInput.ts:33 | the validator's result on the raw value; ValidateTextPrecedence states its contract |
| CommonTextInputHook.TextInput.HandleChange | src/hooks/common/useTextInput.ts:44-59 | the value becomes the sanitised input: line-break free, at most 50 units, a prefix of the line-break-free input, never rejected for those; `touched` becomes true |
| CommonTextInputHook.TextInput.SetValue | src/hooks/common/useTextInput.ts:28 | the raw setter stores its argument unchanged and touches nothing else |
| CommonTextInputHook.TextInput.Reset | src/hooks/common/useTextInput.ts:61-64 | the state returns to ('', false) |
| Decimal.ShowNat | src/services/tossAuth.ts:205-206 | `String(n)` is a non-empty digit string with no leading zero, one digit exactly below 10 |
| Decimal.Show | src/services/tossAuth.ts:205-206 | `String(n)`, a minus sign before negative values; ParseShow and ShowInjective state its contract |
| Decimal.ParseInteger | src/services/tossAuth.ts:222 | `Number(s)` on integer text; ParseShow states that it inverts Show |
| Decimal.PadStart2 | src/utils/dateUtils.ts:15-16 | `padStart(2, '0')`; PadStart2Spec states its contract |
| Decimal.PadStart2Spec | src/utils/dateUtils.ts:15-16 | the result has length of `s` or 2, whichever is larger, ends with `s`, and everything before `s` is '0' |
| Decimal.TwoDigits | src/utils/dateUtils.ts:15-16 | `String(k).padStart(2, '0')`; TwoDigitsShape states its contract |
| Decimal.DigitsValueOfShowNat | src/services/tossAuth.ts:205-206 | the digits of `String(n)` have value n |
| Decimal.ParseShow | src/services/tossAuth.ts:214-222 | `Number(String(n)) == n` for every integer the store writes |
| Decimal.ShowInjective | src/utils/dateUtils.ts:14-17 | different integers are written differently |
| Decimal.TwoDigitsShape | src/utils/dateUtils.ts:15-16 | `padStart(2, '0')` of 0..99 is exactly two digits with that value |
| Decimal.ShowNatFourDigits | src/utils/dateUtils.ts:14 | a year from 1000 to 9999 is written with four digits |
| Decimal.DigitsValueInjective | src/utils/dateUtils.ts:20-22 | digit strings of one width with equal values are equal |
| DateUtils.GetDaysInMonth | src/utils/dateUtils.ts:1-3 | always 28..31; for February, 29 exactly in Gregorian leap years (of the year after month overflow and two-digit remapping) |
| DateUtils.DaysInMonthIsLastDay | src/utils/dateUtils.ts:1-3 | day 0 of the next month is the day numbered `getDaysInMonth` of this month |
| DateUtils.GetFirstDayOfMonth | src/utils/dateUtils.ts:5-7 | a weekday 0..6, Sunday being 0 |
| DateUtils.DayFromYearStep | src/utils/dateUtils.ts:1-7 | each year adds its own length (365 or 366 days) to the day count |
| DateUtils.NextMonthStart | src/utils/dateUtils.ts:1-7 | months follow each other without gap or overlap, December running into January |
| DateUtils.FirstDayChain | src/utils/dateUtils.ts:1-7 | firstDay(y, m+1) == (firstDay(y, m) + daysInMonth(y, m)) % 7 |
| DateUtils.FirstDayNewYear | src/utils/dateUtils.ts:1-7 | January's first weekday follows December's of the year before |
| DateUtils.November2025 | src/utils/dateUtils.ts:1-7 | November 2025 starts on a Saturday and has 30 days |
| DateUtils.ParseDate | src/utils/dateUtils.ts:20-22 | a date it reads is a real calendar date |
| DateUtils.IsSameMonth | src/utils/dateUtils.ts:24-27 | true only for a date string, and then exactly when YYYY is the year and MM is the month index + 1 |
| DateUtils.FormatDateSplit | src/utils/dateUtils.ts:13-18 | the text is the year, the separator, two month digits, the separator and two day digits |
| DateUtils.FormatDateInjective | src/utils/dateUtils.ts:13-18 | two dates with the same text under one separator are the same date |
| DateUtils.DashFormatFields | src/utils/dateUtils.ts:13-18 | with '-' and a four-digit year, the text has the exact "YYYY-MM-DD" layout |
| DateUtils.ParseFormatDate | src/utils/dateUtils.ts:13-27 | a date formatted with '-' reads back as itself and is in its own month |
| DateUtils.DateStringUnique | src/utils/dateUtils.ts:20-22 | two date strings that read as the same date are the same text |
| DateUtils.FormatDate | src/utils/dateUtils.ts:13-18 | year, separator, padded month number, separator, padded day; FormatDateSplit, FormatDateInjective and ParseFormatDate state its contract |
| CalendarView.Grid | src/components/stats/CalendarView.tsx:15-19 | `firstDay` blanks followed by days 1..daysInMonth in increasing order |
| CalendarView.GridColumnIsWeekday | src/components/stats/CalendarView.tsx:53-55 | each day sits in the grid column of its weekday |
| CalendarView.DateKeyIsFormatDate | src/components/stats/CalendarView.tsx:23-24 | the lookup key is the text `formatDate(date, '-')` gives for that day |
| CalendarView.DateKeyInjective | src/components/stats/CalendarView.tsx:23-24 | different days of a month have different keys |
| CalendarView.DateKey | src/components/stats/CalendarView.tsx:24 | the padded "YYYY-MM-DD" key of a day; DateKeyIsFormatDate and DateKeyInjective state its contract |
| CalendarView.FindByDate | src/components/stats/CalendarView.tsx:25 | none exactly when no entry has the key, otherwise the first entry that does |
| CalendarView.GetEntryForDay | src/components/stats/CalendarView.tsx:23-26 | the first entry under the day's key; FindByDate states its contract, RenderDay how it is shown |
| CalendarView.ScoreBand | src/components/stats/CalendarView.tsx:29-34 | the bands partition the scores: ≤30 red, 31..50 yellow, 51..70 green, >70 blue |
| CalendarView.ScoreBandMonotone | src/components/stats/CalendarView.tsx:29-34 | a higher score never falls in a lower band |
| CalendarView.BackgroundColor | src/components/stats/CalendarView.tsx:29-34 | red100, yellow100, green100 or blue100 by score; ColoursShareBand states that it is the score's band |
| CalendarView.TextColor | src/components/stats/CalendarView.tsx:37-42 | red700, yellow700, green700 or blue700 by score; ColoursShareBand states that it is the score's band |
| CalendarView.ColoursShareBand | src/components/stats/CalendarView.tsx:29-42 | background and text colour of a score come from the same band, the background in its light (100) shade and the text in its dark (700) shade |
| CalendarView.BandAndShadeDetermineColour | src/components/stats/CalendarView.tsx:29-42 | a band and a shade name exactly one colour token, so ColoursShareBand fixes both colours |
| CalendarView.RenderDay | src/components/stats/CalendarView.tsx:55-66 | the cell passes its own date string; it is selected exactly when that string is the selected date; a day without entry is transparent, grey800 and regular; a scored day is bold, with the light shade of the entry's band behind and the dark shade as text |
| CalendarView.RenderDays | src/components/stats/CalendarView.tsx:55-89 | the day cells of days 1..daysInMonth in order; RenderDaysAt and AtMostOneSelected state its contract |
| CalendarView.RenderDaysAt | src/components/stats/CalendarView.tsx:55-58 | cell i is day i+1 and is selected exactly when that day's key is the selected date |
| CalendarView.AtMostOneSelected | src/components/stats/CalendarView.tsx:57-58 | at most one day cell of a month is selected |
| GraphView.FilterMonth | src/components/stats/GraphView.tsx:20-21 | every kept entry is in the month, and every entry of the month is kept as often as it occurs |
| GraphView.InsertPermutes | src/components/stats/GraphView.tsx:22 | inserting adds exactly the inserted element |
| GraphView.SortedCons | src/components/stats/GraphView.tsx:22 | a smaller element before a sorted sequence keeps it sorted |
| GraphView.InsertKeepsSorted | src/components/stats/GraphView.tsx:22 | inserting into a sorted sequence keeps it sorted |
| GraphView.SortBySpec | src/components/stats/GraphView.tsx:22 | the sort yields a permutation of its input in ascending key order |
| GraphView.SortBy | src/components/stats/GraphView.tsx:22 | a stable insertion sort by key; SortBySpec states its contract |
| GraphView.TimeOf | src/components/stats/GraphView.tsx:22 | `new Date(d.date).getTime()` as a day number; SameMonthTime and MonthlyDataSpec state what ordering by it means |
| GraphView.DayOf | src/components/stats/GraphView.tsx:40 | `new Date(d.date).getDate()`; DayWithinMonth and SameDaySameDate state its contract |
| GraphView.ToPoint | src/components/stats/GraphView.tsx:39-43 | the point carries the entry's date and score, and lies inside the plot horizontally when its day is in the month and vertically when its score is 0..100 |
| GraphView.SameMonthTime | src/components/stats/GraphView.tsx:22 | within one month, the time difference is the day difference |
| GraphView.MonthlyDataInMonth | src/components/stats/GraphView.tsx:19-23 | every entry of `monthlyData` belongs to the month |
| GraphView.MonthlyDataSpec | src/components/stats/GraphView.tsx:19-23 | `monthlyData` is exactly the month's entries of `data`, with multiplicity, in ascending date order |
| GraphView.MonthlyData | src/components/stats/GraphView.tsx:19-23 | the filtered copy sorted by time; MonthlyDataSpec states its contract |
| GraphView.PointX | src/components/stats/GraphView.tsx:41 | a day of the month maps into [20, 280] |
| GraphView.PointXIncreasing | src/components/stats/GraphView.tsx:41 | a later day lies strictly further right |
| GraphView.PointY | src/components/stats/GraphView.tsx:42 | a score in 0..100 maps into [20, 180] |
| GraphView.PointYDecreasing | src/components/stats/GraphView.tsx:42 | a higher score gives a strictly smaller y |
| GraphView.GuideLines | src/components/stats/GraphView.tsx:50-51 | the guide lines for 0, 50 and 100 use the points' y mapping, at 180, 100 and 20 |
| GraphView.Render | src/components/stats/GraphView.tsx:25-44 | the "no data" view exactly when `monthlyData` is empty, otherwise one point per entry |
| GraphView.PointsFollowDateOrder | src/components/stats/GraphView.tsx:39-44 | x never decreases along the polyline, and increases strictly between different dates |
| GraphView.SameDaySameDate | src/components/stats/GraphView.tsx:40 | two entries of one month on the same day carry the same date text |
| GraphView.DayWithinMonth | src/components/stats/GraphView.tsx:40 | an entry of the month has a day within the month |
| GraphView.PointsInsidePlot | src/components/stats/GraphView.tsx:34-44 | every point lies between the paddings horizontally, and vertically when its score is 0..100 |
| TokenStorage.SaveThenRead | src/services/tossAuth.ts:202-247 | tokens saved at `now` and read with one clock reading at the same `now` come back unchanged, and the store is left as it was |
| TokenStorage.SaveExpiredThenRead | src/services/tossAuth.ts:202-241 | tokens saved with a negative lifetime read back at once as null and clear the session, whatever the second clock reading |
| TokenStorage.MissingEntryKeepsStore | src/services/tossAuth.ts:229-235 | a missing or empty token entry yields null and changes nothing |
| TokenStorage.ReadTokensOutcome | src/services/tossAuth.ts:228-248 | tokens come back exactly when all three entries are present and the expiry has not passed, and then the store is unchanged; past the expiry all four keys are removed |
| TokenStorage.ReadLifetime | src/services/tossAuth.ts:238-246 | with one clock reading, a returned lifetime is ≥ 0, is the whole seconds left, and is 0 at the expiry instant |
| TokenStorage.ReadLifetimeAsWritten | src/services/tossAuth.ts:238-246 | with the two clock readings of the source, the lifetime is the whole seconds left at the second reading; it is negative exactly when the clock passed the expiry between the readings, and then at least -1 if less than a second passed |
| TokenStorage.LifetimeCanBeMinusOne | src/services/tossAuth.ts:238-246 | tokens saved with lifetime 0 and read while the clock ticks one millisecond between the two readings come back with lifetime -1 |
| TokenStorage.ReadTokensOnce | src/services/tossAuth.ts:228-248 | the read with one clock reading for the test and the lifetime: a returned lifetime is never negative |
| TokenStorage.SecondsLeft | src/services/tossAuth.ts:246 | `Math.floor((expiresAt - now) / 1000)`; ReadLifetime and ReadLifetimeAsWritten state its bounds |
| TokenStorage.ClearRemovesSession | src/services/tossAuth.ts:253-258 | clearing removes exactly the four keys and keeps every other entry |
| TokenStorage.ClearIdempotent | src/services/tossAuth.ts:253-258 | clearing twice equals clearing once |
| TokenStorage.ClearedStoreIsEmptySession | src/services/tossAuth.ts:220-258 | after clearing, neither tokens nor a user key can be read |
| TokenStorage.SaveThenReadUserKey | src/services/tossAuth.ts:213-223 | a saved user key reads back as itself |
| TokenStorage.ReadUserKeyAbsent | src/services/tossAuth.ts:220-223 | null exactly when the entry is absent or empty |
| TokenStorage.SavesTouchOnlyTheirKeys | src/services/tossAuth.ts:202-215 | saving tokens keeps every other entry, and saving the user key keeps every other entry |
| TokenStorage.OperationsKeepStoreValid | src/services/tossAuth.ts:202-258 | every operation keeps the stored expiry and user key readable as numbers |
| TokenStorage.NumberOf | src/services/tossAuth.ts:222 | `Number(s)` on the integer text the store holds; ParseShow states that it reads back what was written |
| TokenStorage.SaveTokens | src/services/tossAuth.ts:202-208 | the table with both tokens and the expiry written; SaveThenRead and SavesTouchOnlyTheirKeys state its contract |
| TokenStorage.PutUserKey | src/services/tossAuth.ts:213-215 | the table with `String(userKey)` written; SaveThenReadUserKey and SavesTouchOnlyTheirKeys state its contract |
| TokenStorage.ReadUserKey | src/services/tossAuth.ts:220-223 | the stored number or null; ReadUserKeyAbsent and SaveThenReadUserKey state its contract |
| TokenStorage.Clear | src/services/tossAuth.ts:253-258 | the table without the four session keys; ClearRemovesSession and ClearIdempotent state its contract |
| TokenStorage.ReadTokens | src/services/tossAuth.ts:228-248 | tokens and the table after reading, as written: the expiry test at the first clock reading, the lifetime at the second; ReadTokensOutcome and ReadLifetimeAsWritten state its contract |
| TokenStorage.AuthStorage.constructor | src/services/tossAuth.ts:202-258 | the storage starts from a given valid table |
| TokenStorage.AuthStorage.SaveAuthTokens | src/services/tossAuth.ts:202-208 | writes the two tokens and the expiry `now + expiresIn·1000`, keeping the store valid |
| TokenStorage.AuthStorage.SaveUserKey | src/services/tossAuth.ts:213-215 | writes `String(userKey)` under the user key |
| TokenStorage.AuthStorage.GetUserKey | src/services/tossAuth.ts:220-223 | the stored number, or null for an absent or empty entry |
| TokenStorage.AuthStorage.ClearAuthTokens | src/services/tossAuth.ts:253-258 | removes the four session keys and nothing else |
| TokenStorage.AuthStorage.GetStoredAuthTokens | src/services/tossAuth.ts:228-248 | result and new table are those of the read-with-expiry function at the two clock readings `now` (test) and `later` (lifetime), including the clearing of an expired session |
| DiarySubmit.Contains | src/hooks/domain/diary/useDiarySubmit.ts:79-83 | `includes` is true exactly when the text occurs at some index |
| DiarySubmit.MissingFirstCharacter | src/hooks/domain/diary/useDiarySubmit.ts:79-83 | a text without the first character of a keyword does not contain it |
| DiarySubmit.AlertsDistinct | src/hooks/domain/diary/useDiarySubmit.ts:78-90 | the five alert texts are pairwise different |
| DiarySubmit.FailureAlertPrecedence | src/hooks/domain/diary/useDiarySubmit.ts:78-90 | each alert is chosen exactly when its keyword ('로그인', then 'GPT', then '네트워크') is the first one the message contains; a non-Error throw gets the unknown-error alert |
| DiarySubmit.FailureAlert | src/hooks/domain/diary/useDiarySubmit.ts:78-90 | the alert for what was caught; FailureAlertPrecedence states its contract |
| DiarySubmit.CheckResponse | src/hooks/domain/diary/useDiarySubmit.ts:50-52 | accepts exactly a present response with a non-empty line and a numeric score, passing both on; otherwise throws the guard's Error |
| DiarySubmit.GuardMessageHasNoLogin | src/hooks/domain/diary/useDiarySubmit.ts:51 | the guard's message does not contain '로그인' |
| DiarySubmit.GuardMessageHasGpt | src/hooks/domain/diary/useDiarySubmit.ts:51 | the guard's message contains 'GPT' |
| DiarySubmit.GuardFailureIsAnalysis | src/hooks/domain/diary/useDiarySubmit.ts:50-52 | a rejected response is reported as a failed analysis |
| DiarySubmit.LoginRequiredIsLogin | src/services/diary.ts:36 | the diary service's "login required" error gets the login alert |
| DiarySubmit.NetworkMessageKeywords | src/services/api.ts:58-62 | the transport's network message contains only the network keyword |
| DiarySubmit.NetworkErrorIsNetwork | src/services/api.ts:58-62 | the transport's network error gets the network alert |
| DiarySubmit.AlertCount | src/hooks/domain/diary/useDiarySubmit.ts:75-90 | zero exactly when the trace holds no alert |
| DiarySubmit.AlertCountAppend | src/hooks/domain/diary/useDiarySubmit.ts:75-90 | alerts of two traces add up |
| DiarySubmit.HandleSubmit | src/hooks/domain/diary/useDiarySubmit.ts:29-94 | the effects of one submission in order; the lemmas below state its contract |
| DiarySubmit.AfterAnalysis | src/hooks/domain/diary/useDiarySubmit.ts:45-90 | the effects after the analysis; AfterAnalysisSaves and SubmitFailureAlert state its contract |
| DiarySubmit.AlreadyWrittenOnlyNavigates | src/hooks/domain/diary/useDiarySubmit.ts:31-34 | with today's line written, the only effect is opening '/stats' skipping the completion screen: no ad, no analysis, no save |
| DiarySubmit.SubmitStartsWithAd | src/hooks/domain/diary/useDiarySubmit.ts:36-47 | otherwise the ad comes first, the analysis of the trimmed line second, and the completion screen is never skipped |
| DiarySubmit.SubmitEndsOnce | src/hooks/domain/diary/useDiarySubmit.ts:36-90 | the submission ends on '/stats' with no alert exactly when the analysis is scored and the save succeeds, and otherwise ends with exactly one alert |
| DiarySubmit.SubmitFailureAlert | src/hooks/domain/diary/useDiarySubmit.ts:45-90 | a failed submission ends with the alert for what was thrown: the scoring call's failure, the analysis alert for a rejected response, or the save's failure |
| DiarySubmit.AfterAnalysisSaves | src/hooks/domain/diary/useDiarySubmit.ts:45-61 | after the analysis, a save comes first exactly when the response is scored, and no second save follows |
| DiarySubmit.SavesAfterPrefix | src/hooks/domain/diary/useDiarySubmit.ts:36-61 | the ad and the analysis save nothing, so whether the trace saves is decided after them |
| DiarySubmit.SubmitSavesOnlyWhenScored | src/hooks/domain/diary/useDiarySubmit.ts:45-61 | something is saved exactly when the analysis succeeds and passes the guard |
| DiarySubmit.SubmitSavesScoredLine | src/hooks/domain/diary/useDiarySubmit.ts:55-60 | the save carries today's date in '-' form and the scored line and score, right after the analysis |
| DiarySubmit.SavedDateIsToday | src/hooks/domain/diary/useDiarySubmit.ts:55 | the saved date reads back as today and falls in today's month |

## Left out

- Network and SDK calls are outside the model: the login flow, the REST wrappers, the scoring call and the ad SDK. In `DiarySubmit` their outcomes are parameters. The ad always resolves, because every path of `showAd` in src/hooks/common/useAdMob.ts ends in `resolve()`.
- DiarySubmit.SubmitEndsOnce: `ShowAd` stands for the whole ad step. That step includes the alert `showAd` itself raises where ads are unsupported (src/hooks/common/useAdMob.ts:34-37). Alert counts cover only the alerts of `handleSubmit`, so in such an environment the user sees one more alert than the count says.
- `isLoading`, `console.error` and the async sequencing of `handleSubmit` are left out. The model keeps the order of the visible effects only.
- `getToday` reads the clock, and `Date.now()` in the token store reads it too. Each reading becomes a parameter: `today`, `now`, and `later` for the second reading in `getStoredAuthTokens`.
- Rendering (JSX, SVG attributes, the "x,y" point strings) is left out. Colour tokens are opaque constructors, grouped into four bands.
- React state cells become class fields. A state update is applied at once rather than on the next render, which does not change any state reachable through the hook's functions.
- src/types/diary.ts is not part of this model. `Diary.DiaryEntry` carries the fields the calendar and the graph read.
- DateUtils.ParseDate: only the strict "YYYY-MM-DD" form with an existing month and day is read, and every other text is an Invalid Date. `new Date` accepts more forms, but the app stores and compares dates only in this one.
- DateUtils.IsSameMonth: one time zone that agrees with UTC is assumed. In other time zones a date-only string parsed as UTC can report the previous day's local fields.
- GraphView.PointX: requires `daysInMonth >= 2`. Every real month has at least 28 days; with 1 the source divides by zero.
- GraphView.PointsInsidePlot: requires `year >= 100`. Below that, the `Date` constructor remaps years 0 to 99 to 1900 to 1999, while `isSameMonth` compares against the year as written.
- GraphView: coordinates are exact rationals, not IEEE doubles. Rounding in the last place is not modelled.
- TokenStorage.NumberOf: reads only the integer text the store itself writes. Any other text, which only another writer could store, reads as 0 rather than NaN. `ValidStore` records that only integers are stored.
- Decimal.Show: numbers are unbounded integers. `String(n)` and `Number(s)` on JavaScript doubles agree with them only for safe integers (below 2^53 in magnitude); from 1e21 on `String` switches to exponent form, which the model does not produce. ParseShow, SaveThenRead and SaveThenReadUserKey hold only in that range.
- DateUtils.GetDaysInMonth: years are unbounded integers. The `Date` object holds only instants within ±8.64e15 ms of the epoch (the TimeClip operation of ECMA-262), about years -271821 to 275760; outside that range `new Date` is an Invalid Date and its fields are NaN. The bounds stated for GetDaysInMonth and GetFirstDayOfMonth hold only within that range.
- Scores are integers. A fractional score from the scoring service is not modelled.
- TextValidation: strings are UTF-16 code units, and the whitespace set is the ECMA-262 WhiteSpace and LineTerminator set written out for Unicode 15. No other Unicode version is modelled.
- SortBy is an insertion sort. Any correct sort yields the same `monthlyData` up to the order of entries with the same date. `Array.prototype.sort` is stable since ES2019, and so is this one, but stability is not stated as a lemma.

## Findings

| source | as written | input that shows it | evidently intended | confidence | as-written member | corrected member |
|---|---|---|---|---|---|---|
| src/services/tossAuth.ts:238-246 | `getStoredAuthTokens` reads `Date.now()` once for the expiry test and again for `expiresIn` | tokens saved with `expiresIn` 0 at instant T, read when the first reading is T and the second T+1: the test passes and `expiresIn` is -1 | a token that passes the expiry test has a lifetime of at least 0, which one clock reading for both gives | not executed | TokenStorage.LifetimeCanBeMinusOne | TokenStorage.ReadTokensOnce |
