# e-SMBG blood-sugar scraper: a verified model of its core

The scraper logs in to the e-SMBG ASP.NET site, moves to the blood-sugar data page, optionally narrows it to one month through the year and month `select` controls, finds the measurement table, and turns its rows into records. The records are then cleaned, validated and summarised. Around this sits Selenium, and the decisions are heuristic: ordered lists of candidate locators, keyword lists, a regular expression for numbers and twelve `strptime` formats tried in order.

This project models those decisions in Dafny and proves what they guarantee. The page the browser shows is plain data: elements in document order, each with its tag, attribute map, visible text and `select` options. Tables are sequences of rows of cell texts. Every driver lookup is a total function that answers with the index of the first matching element, or `None` where the driver would raise.

| file | models |
|---|---|
| `wrappers.dfy` | `Option` |
| `text.dfy` | ASCII digits and lowercasing, `in` on strings, `str.strip`, `str.split`, the generic first-match search, a flat map |
| `dom.dfy` | elements, attribute lookup, CSS attribute selectors, partial link text, `find_element` and the try-each-candidate idiom |
| `numeric.dfy` | `extract_numeric_value` |
| `datetime.dfy` | `parse_datetime`: the twelve formats, `strptime` field scanning and calendar checks, `isoformat` |
| `data_extractor.dfy` | `find_data_table`, `find_column_index`, `parse_data_table`, `set_date_filter`, `find_select_elements`, `extract_blood_sugar_data` |
| `session_manager.dfy` | the `SessionManager` object with its `viewstate` and `eventvalidation` fields, `get_aspnet_params`, `login`, `navigate_to_data_page` |
| `utils.dfy` | `DataProcessor.clean_data`, `validate_data`, `generate_summary`, `RetryUtils.retry_on_exception` |

The modelling choices that shape the contracts:

- **Values are exact.** Measured values are `real`, so `float(...)` is exact decimal arithmetic here.
- **`parse_datetime` follows CPython's `_strptime`.** Each directive is scanned with the alternatives of CPython's `_strptime` regular expressions, taken in order. The match is anchored at the start of the text, and leftover text is rejected. The fields must then form a real `datetime`: year at least 1, a day that exists in its month (with leap years), and seconds at most 59. The output is ISO 8601 extended format `YYYY-MM-DDTHH:MM:SS` (ISO 8601:2004 section 4.3.2).
- **The parser is proved against a renderer.** The partner of that parser is `Render`, which is `strftime` for the same formats. `ParseRender` proves the round trip, and the concrete behaviours (month-first before day-first, impossible dates passing through unchanged) are derived from it.
- **Loops are methods; the rest are functions.** Each loop of the source that builds a list or updates state is a `method`. `ParseRows`, `CleanData`, `ValidateData` and the candidate loop `FindFirst` are proved equal to a specification function, and the lemmas are stated about those functions. `FindSelectElements` and `RetryOnException` are specified by properties instead. For `FindSelectElements`, the result is the matching `select` elements in page order, each once. For `RetryOnException`, the contract states which calls are made and how the last one decides the outcome.
- **The session state is a class.** `get_aspnet_params` updates two fields, so `SessionManager` is a class whose methods say exactly how those fields change.

## Model

| member | source | states |
|---|---|---|
| `Text.FirstIndex` | src/data_extractor.py:174-179 | the first index whose element passes the test: it passes, no earlier one does, and `None` exactly when none does |
| `Text.FirstIndexAt` | src/session_manager.py:75-81 | once no element before `i` passes, the search answers `i` if `i` passes, and `None` when `i` is the end |
| `Text.Contains` | src/data_extractor.py:95 | Python's `needle in s` is true exactly when the needle occurs at some position |
| `Text.AnyKeywordIn` | src/data_extractor.py:95 | `any(k in text for k in keywords)` is true exactly when some keyword occurs in the text |
| `Text.Lower` | src/data_extractor.py:87 | lowercasing keeps the length and maps each character through ASCII lowercasing |
| `Text.Strip` | src/data_extractor.py:125 | `strip()` gives the slice of the input left after removing a whitespace prefix and a whitespace suffix; the slice neither starts nor ends with whitespace |
| `Text.StripExample` | src/data_extractor.py:144 | `" 95 "` strips to `"95"` |
| `Text.StripTrimmed` | src/data_extractor.py:144 | stripping text that is already trimmed changes nothing, so stripping twice is stripping once |
| `Text.StripAll` | src/data_extractor.py:158 | every cell is stripped, and the count of cells is kept |
| `Text.Split` | src/data_extractor.py:238 | `split('-')` gives at least one part, and no part contains the separator |
| `Text.JoinSplit` | src/data_extractor.py:238 | joining the parts of `split` with the separator gives back the text |
| `Text.SplitCount` | src/data_extractor.py:238 | the number of parts is one more than the number of separators |
| `Text.ContainsPrefix` | src/session_manager.py:84-90 | a text containing a word contains every prefix of that word |
| `Dom.Attr` | src/session_manager.py:25 | `get_attribute` gives the attribute's value exactly when the element has that attribute |
| `Dom.FindElement` | src/session_manager.py:77 | `find_element` gives the first element in document order that the locator matches, and `None` exactly when none matches |
| `Dom.FindByName` | src/session_manager.py:24 | `find_element(By.NAME, n)` gives the first element whose `name` is exactly `n`, and `None` exactly when none has it |
| `Dom.Locate` | src/session_manager.py:75-81 | trying candidates in order: the first rule that matches anything wins, no earlier rule matches any element, and the element is that rule's first match in document order |
| `Dom.LocateAt` | src/session_manager.py:75-81 | when every rule before `i` finds nothing, `i` decides: its hit, or no hit at all past the last rule |
| `Dom.LocateIgnoresLaterRules` | src/session_manager.py:75-81 | appending candidates after a list that already finds something never changes the result |
| `Numeric.ExtractNumericValue` | src/data_extractor.py:181-194 | the result is `None` exactly when the text has no digit, and it is never negative |
| `Numeric.DigitRun` | src/data_extractor.py:185 | the greedy `\d*` takes the longest all-digit prefix and stops at a non-digit or the end |
| `Numeric.NumberAt` | src/data_extractor.py:185-189 | a match starting at a digit has a non-negative value |
| `Numeric.SkipPrefix` | src/data_extractor.py:186 | `re.search` skips any digit-free prefix: the value is that of the rest |
| `Numeric.NumberAtDecimal` | src/data_extractor.py:185-189 | `digits.digits` followed by a non-digit reads as that decimal |
| `Numeric.ExtractDecimal` | src/data_extractor.py:185-189 | a decimal number with no digit before it and none after it is found whatever surrounds it |
| `Numeric.ExtractWhole` | src/data_extractor.py:185-189 | a whole number followed by neither a digit nor a point reads as that integer, whatever its sign |
| `Numeric.ExtractWithUnit` | src/data_extractor.py:185-189 | "95.5 mg/dL" gives 95.5 |
| `Numeric.ExtractStopsAtSecondPoint` | src/data_extractor.py:185-189 | "1.2.3" gives 1.2 |
| `Numeric.ExtractIgnoresSign` | src/data_extractor.py:185-189 | "-5" gives 5 |
| `Numeric.WholeNumberExample` | src/data_extractor.py:185-189 | "120" gives 120 |
| `DateParsing.DaysInMonth` | src/data_extractor.py:220 | a month has between 28 and 31 days |
| `DateParsing.Set` | src/data_extractor.py:220 | setting one field of a `datetime` changes that field only |
| `DateParsing.ScanField` | src/data_extractor.py:220 | one directive takes between one character and the rest of the text, and yields a value in the directive's range. The contract also gives the value read: four digits for `%Y`, two digits, or one digit. A lone digit not followed by another digit is accepted (`[1-9]` for `%m`/`%d`, `\d` for `%H`/`%M`/`%S`). For `%d`, a space followed by `1`-`9` is accepted too |
| `DateParsing.Strptime` | src/data_extractor.py:220 | `strptime` returns a date and time exactly when the format parses the whole text into a real date and time, and then it returns that parse |
| `DateParsing.MatchingPattern` | src/data_extractor.py:218-223 | the first format in list order that accepts the text; `None` exactly when no format does |
| `DateParsing.Pad2` | src/data_extractor.py:221 | two digits that read back as the value |
| `DateParsing.Pad4` | src/data_extractor.py:221 | four digits that read back as the value |
| `DateParsing.Iso` | src/data_extractor.py:221 | `isoformat()` is 19 characters long |
| `DateParsing.IsoRoundTrip` | src/data_extractor.py:221 | the ISO text has its separators at the fixed positions and reads back as the same date and time |
| `DateParsing.ParseDatetime` | src/data_extractor.py:196-230 | empty text gives `None`; a text some format accepts gives the ISO form of the first such format's result; any other text comes back unchanged |
| `DateParsing.MatchingPatternIsFirst` | src/data_extractor.py:218-223 | a format that accepts the text while no earlier one does is the one found |
| `DateParsing.NothingParsesEmpty` | src/data_extractor.py:199-200 | no format accepts empty text |
| `DateParsing.ValidInRanges` | src/data_extractor.py:220-221 | a real date and time has fields the directives can produce and the ISO widths can print |
| `DateParsing.Pad` | src/data_extractor.py:221 | a zero-padded field is four characters for the year and two otherwise |
| `DateParsing.RenderCons` | src/data_extractor.py:203-216 | rendering a format renders its first directive, then the rest |
| `DateParsing.ScanPadded` | src/data_extractor.py:220 | a zero-padded field is taken whole, with its value, whatever follows |
| `DateParsing.ScanPaddedYear` | src/data_extractor.py:220 | `%Y` takes a four-digit year whole |
| `DateParsing.ScanPaddedTwo` | src/data_extractor.py:220 | every two-digit directive takes a zero-padded value whole |
| `DateParsing.ParseRender` | src/data_extractor.py:203-220 | round trip: each format parses its own rendering of in-range fields back to those fields |
| `DateParsing.ParseRenderTooShort` | src/data_extractor.py:203-220 | a text that ends before a separator the format still demands is rejected |
| `DateParsing.RenderChars` | src/data_extractor.py:203-216 | a rendering holds only digits and the format's own separators |
| `DateParsing.ParsedHasSeparators` | src/data_extractor.py:220 | every separator a format demands occurs in any text it accepts |
| `DateParsing.ParsedChars` | src/data_extractor.py:220 | an accepted text holds only digits, spaces and the format's separators |
| `DateParsing.MissingSeparator` | src/data_extractor.py:220 | a format rejects text missing one of its separators |
| `DateParsing.ForeignCharRejects` | src/data_extractor.py:220 | a format rejects text that has a character which is not a digit, a space or one of its separators |
| `DateParsing.RenderAppend` | src/data_extractor.py:203-216 | rendering distributes over concatenated formats |
| `DateParsing.RenderThree` | src/data_extractor.py:208-215 | the rendering of a three-field date `A s B s C` |
| `DateParsing.RenderClock` | src/data_extractor.py:204-207 | the rendering of the clock part ` HH:MM` |
| `DateParsing.FillGet` | src/data_extractor.py:220 | each field after parsing comes from the text when the format sets it and from the default otherwise |
| `DateParsing.FillExact` | src/data_extractor.py:220 | parsing gives back exactly the fields when the format sets every field that differs from the default |
| `DateParsing.AcceptedFirst` | src/data_extractor.py:218-221 | the first accepting format decides the ISO result |
| `DateParsing.RenderSeconds` | src/data_extractor.py:204 | the rendering of `%Y-%m-%d %H:%M:%S` |
| `DateParsing.RenderMinutes` | src/data_extractor.py:206 | the rendering of `%Y-%m-%d %H:%M` |
| `DateParsing.SecondsFormatFirst` | src/data_extractor.py:203-221 | "YYYY-MM-DD HH:MM:SS" of a real date and time comes back as its ISO form |
| `DateParsing.SecondsAccepted` | src/data_extractor.py:204 | the first format reads its own rendering back |
| `DateParsing.RenderAccepted` | src/data_extractor.py:218-220 | a format reads its rendering back when the date differs from the default only in fields the format sets |
| `DateParsing.MinutesRejectsSeconds` | src/data_extractor.py:204-205 | the two seconds formats reject a "YYYY-MM-DD HH:MM" text |
| `DateParsing.MinutesTooShort` | src/data_extractor.py:204 | `%Y-%m-%d %H:%M:%S` rejects a text that stops after the minutes |
| `DateParsing.MinutesHaveNoSlash` | src/data_extractor.py:205 | `%Y/%m/%d %H:%M:%S` rejects a text with dashes |
| `DateParsing.MinutesFormat` | src/data_extractor.py:203-221 | "YYYY-MM-DD HH:MM" gives the ISO form with `:00` seconds |
| `DateParsing.MinutesAccepted` | src/data_extractor.py:206 | the minutes format reads its own rendering back when the seconds are zero |
| `DateParsing.DateOnlyIsMidnight` | src/data_extractor.py:208 | "YYYY-MM-DD" gives midnight, `T00:00:00` |
| `DateParsing.ImpossibleDatePassesThrough` | src/data_extractor.py:218-226 | a day its month lacks is rejected by every format, so the text comes back unchanged |
| `DateParsing.DashDateText` | src/data_extractor.py:208 | a "YYYY-MM-DD" rendering has neither a colon nor a slash |
| `DateParsing.DashDateRejectsOthers` | src/data_extractor.py:203-216 | every format except `%Y-%m-%d` demands a colon or a slash |
| `DateParsing.ImpossibleDateRejected` | src/data_extractor.py:208 | `%Y-%m-%d` scans a day the month lacks, and `datetime` refuses it |
| `DateParsing.YearFirstRejects` | src/data_extractor.py:205-209 | year-first slash formats reject a text with '/' at index 2 |
| `DateParsing.SlashDateRejectsOthers` | src/data_extractor.py:203-211 | the first eight formats reject a slash-only date "A/B/YYYY" |
| `DateParsing.MonthFirstWins` | src/data_extractor.py:210-215 | "MM/DD/YYYY" is read month first even when the day would also be a month |
| `DateParsing.LargeDayIsNoMonth` | src/data_extractor.py:210-214 | a first number above 12 makes every month-first format and the day-first clock formats reject the date |
| `DateParsing.DayFirstFallback` | src/data_extractor.py:210-215 | "DD/MM/YYYY" with a day above 12 falls through to `%d/%m/%Y` |
| `DateParsing.SlashDateText` | src/data_extractor.py:210-215 | a slash-date rendering starts with two digits and '/' and has no colon or dash |
| `DateParsing.NoForeignSeparator` | src/data_extractor.py:203-216 | a non-digit that the format does not use as a separator is absent from its renderings |
| `DateParsing.ParseDatetimeIdempotent` | src/data_extractor.py:196-226 | parsing an output again changes nothing, because ISO text is accepted by no format |
| `DateParsing.NoLetterSeparator` | src/data_extractor.py:203-216 | no format uses 'T' as a separator |
| `DateParsing.MinutesExample` | src/data_extractor.py:206 | "2024-03-01 08:30" gives "2024-03-01T08:30:00" |
| `DateParsing.MonthFirstExample` | src/data_extractor.py:212 | "03/04/2024" gives "2024-03-04T00:00:00" |
| `DateParsing.DayFirstExample` | src/data_extractor.py:215 | "15/03/2024" gives "2024-03-15T00:00:00" |
| `DateParsing.NoLeapDayExample` | src/data_extractor.py:226 | "2023-02-29" comes back unchanged |
| `DateParsing.LeapDayExample` | src/data_extractor.py:208 | "2024-02-29" gives "2024-02-29T00:00:00" |
| `DataExtractor.FindDataTable` | src/data_extractor.py:85-104 | the first table in page order whose lower-cased text contains a keyword and that has more than one row; `None` exactly when there is none |
| `DataExtractor.FindColumnIndex` | src/data_extractor.py:172-179 | the leftmost column whose lower-cased header contains a lower-cased keyword, whatever the keyword order; `None` exactly when no header matches |
| `DataExtractor.ParseDataTable` | src/data_extractor.py:110-135 | no rows give no records; otherwise the headers come from `th`, or from `td` when there is no `th`, and the records are those of the rows after the header row |
| `DataExtractor.ParseRows` | src/data_extractor.py:135-166 | the loop's list is the records of the data rows, in row order |
| `DataExtractor.ParseRow` | src/data_extractor.py:136-160 | one row's outcome is the record its cells define, or none |
| `DataExtractor.RecordsStep` | src/data_extractor.py:135-160 | one loop step appends the row's record when it has one |
| `DataExtractor.RecordsOfSnoc` | src/data_extractor.py:135-160 | one more row adds its record, if any, at the end |
| `DataExtractor.RecordsOfAppend` | src/data_extractor.py:135-166 | records keep row order: consecutive stretches of rows give consecutive records |
| `DataExtractor.RowRecordIff` | src/data_extractor.py:138-160 | a row yields a record exactly when there is a value column, the row has the cells needed and the value cell holds a digit; the record has the extracted value, the parsed timestamp when there is a date column, every cell stripped as `raw_data`, and no extraction time |
| `DataExtractor.ShortRowSkipped` | src/data_extractor.py:137-139 | a row with fewer `td` cells than `max(value or 0, date or 0) + 1` is skipped, so a row without cells always is |
| `DataExtractor.NoValueColumnNoRecords` | src/data_extractor.py:142-154 | without a value column there are no records |
| `DataExtractor.RecordsWellFormed` | src/data_extractor.py:153-160 | at most one record per row, each with a non-negative value and its raw cells |
| `DataExtractor.HeaderYieldsNothing` | src/data_extractor.py:120-135 | a table gives at most one record per row after the header row, and none when it has no rows |
| `DataExtractor.HeaderRowOnlyNamesColumns` | src/data_extractor.py:120-135 | the header row yields no record: two tables with the same stripped headers and the same rows after the header row give the same records, whatever else the header row holds |
| `DataExtractor.FindSelectElements` | src/data_extractor.py:276-290 | every `select` whose lower-cased name or id contains a keyword, each listed once, in page order, and no other element |
| `DataExtractor.FirstSelect` | src/data_extractor.py:241-243 | the select used is the first matching one in page order; `None` exactly when there is none |
| `DataExtractor.ChooseOption` | src/data_extractor.py:244-248 | the first option with that value; when no option has it, the first with that visible text; `None` exactly when neither exists |
| `DataExtractor.SetDateFilter` | src/data_extractor.py:232-274 | the verdict and the interactions are those of the date filter's specification |
| `DataExtractor.SelectControl` | src/data_extractor.py:240-258 | one half of the filter: nothing when no select matches, otherwise the chosen option of the first select, or failure |
| `DataExtractor.FirstListed` | src/data_extractor.py:241-243 | the head of the list `find_select_elements` returns is the first matching select |
| `DataExtractor.BadYearMonthFails` | src/data_extractor.py:238 | a text without exactly one '-' fails the filter before any interaction |
| `DataExtractor.DateFilterSucceeds` | src/data_extractor.py:240-270 | a well-formed text succeeds exactly when every select found offers the wanted year or month, by value or by text; a missing select or button does not make it fail |
| `DataExtractor.DateFilterClicksButton` | src/data_extractor.py:260-270 | on success the first filter button is clicked last when there is one; otherwise nothing is clicked |
| `DataExtractor.SelectStepChooses` | src/data_extractor.py:240-258 | a select step only chooses options |
| `DataExtractor.ExtractBloodSugarData` | src/data_extractor.py:20-48 | a failed filter gives no records, no measurement table gives no records, and otherwise the records are those of the first measurement table |
| `Session.FindFirst` | src/session_manager.py:75-81 | the candidate loop with its `break` finds what trying the locators in order finds |
| `Session.EventValidation` | src/session_manager.py:28-32 | no `__EVENTVALIDATION` element gives `None`; otherwise the result is the `value` attribute of the first element with that name |
| `Session.SessionManager.constructor` | src/session_manager.py:13-18 | the base URL is the site's, and both hidden-field values start empty |
| `Session.SessionManager.GetAspnetParams` | src/session_manager.py:20-38 | true exactly when there is a `__VIEWSTATE` element; then both fields are read afresh, the event validation becoming `None` when absent; otherwise nothing changes |
| `Session.SessionManager.Login` | src/session_manager.py:40-157 | the hidden fields are read first; the first username and password locators decide; a missing field fails before anything is submitted; the first submit locator's button is clicked, or Enter is pressed without one; success is the URL test |
| `Session.SessionManager.NavigateToDataPage` | src/session_manager.py:188-232 | true exactly when some link keyword finds a link; the first keyword's first link is clicked, and the result does not depend on the hidden fields of the next page |
| `Session.LoginSucceeded` | src/session_manager.py:143 | the login succeeds exactly when the URL after submission differs from the base URL and no five-character window of it lowercases to "login" |
| `Session.LoginSubmission` | src/session_manager.py:60-136 | nothing is submitted exactly when no username locator or no password locator matches an element; otherwise the fields typed into are elements those locators match; a button is clicked only if a submit locator matches it, and Enter is pressed only when no submit locator matches anything |
| `Session.LoginPageMeansFailure` | src/session_manager.py:143 | any URL containing "login" in any letter case fails the login test |
| `Session.LongerNeedleImplies` | src/session_manager.py:84-90 | a substring selector matches wherever a selector for a longer word with the same beginning matches |
| `Session.PasswordImpliesPass` | src/session_manager.py:84-90 | each `password` selector matches only where the `pass` selector four places earlier matches too |
| `Session.PasswordSelectorsShadowed` | src/session_manager.py:84-98 | the `password` and `Password` selectors never decide the password field |
| `Session.CaseSensitiveUsername` | src/session_manager.py:66-81 | attribute substring tests are case-sensitive: an input named only with "User" is found by the third selector |
| `Session.PlainTextInputLastResort` | src/session_manager.py:66-81 | an input with only `type="text"` is found by the last selector |
| `Session.KeywordOrderBeatsPageOrder` | src/session_manager.py:197-212 | keyword order, not page order, decides the link |
| `Utils.CleanData` | src/utils.py:211-231 | the loop's output is the cleaned sequence of its specification |
| `Utils.TruthyCount` | src/utils.py:216 | the count of truthy values is at most the count of records |
| `Utils.CleanedContents` | src/utils.py:215-229 | one output per record with a truthy value: each has a truthy value, the extraction time, and a `raw_data` that is absent or non-empty |
| `Utils.CleanedAppend` | src/utils.py:215-229 | cleaning keeps record order |
| `Utils.CleanedIdempotent` | src/utils.py:211-231 | cleaning twice with the same time is cleaning once |
| `Utils.ValidateData` | src/utils.py:234-260 | the total is the record count, `valid` counts the passing records, `invalid` is the number of errors, and the errors are those of each record in index order |
| `Utils.CheckPassesIff` | src/utils.py:247-253 | a record passes exactly when its value is present and lies in (0, 1000]; an error names its record |
| `Utils.ProblemsIndexed` | src/utils.py:243-258 | valid + invalid = total, and the errors name every failing record once, in increasing index order |
| `Utils.CleanedHasOnlyRangeErrors` | src/utils.py:211-260 | after cleaning, only out-of-range errors remain |
| `Utils.NoFalsyNoInvalid` | src/utils.py:247-250 | without falsy values there is no "invalid value" error |
| `Utils.Min` | src/utils.py:276 | `min` is an element no greater than any element |
| `Utils.Max` | src/utils.py:277 | `max` is an element no less than any element |
| `Utils.SumBounds` | src/utils.py:275 | the sum lies between count × lower bound and count × upper bound |
| `Utils.DivideBounds` | src/utils.py:275 | dividing by a positive count keeps the bounds |
| `Utils.AverageBounds` | src/utils.py:275 | element bounds bound the average |
| `Utils.ElementsBetween` | src/utils.py:276-277 | every element lies between the minimum and the maximum |
| `Utils.AverageBetween` | src/utils.py:275-277 | the average lies between the minimum and the maximum |
| `Utils.TextLeTotal` | src/utils.py:279-280 | Python string order is total |
| `Utils.TextLeTransitive` | src/utils.py:279-280 | Python string order is transitive |
| `Utils.TextLeRefl` | src/utils.py:279-280 | Python string order is reflexive |
| `Utils.MinText` | src/utils.py:279 | `min` of strings is an element no greater than any element |
| `Utils.MaxText` | src/utils.py:280 | `max` of strings is an element no less than any element |
| `Utils.GenerateSummary` | src/utils.py:263-284 | a message for no data or no truthy value, and statistics whenever there is a truthy value: the count of truthy values, their average, a minimum and a maximum that are values and bound them all, and the string-order earliest and latest timestamps, absent together when there are none |
| `Utils.RetryOnException` | src/utils.py:181-191 | no call and `None` when `max_retries` ≤ 0; otherwise at most `max_retries` calls, all but the last raising a retried exception; the last call's value is returned, or its exception raised when it is not retried or no attempt is left |

## Left out

- Browser I/O: `driver.get`, `WebDriverWait`, `time.sleep`, clicks, `clear` and `send_keys`. Clicks and key presses are reported as results (`Submission`, `Action`, the clicked link) rather than performed. The username and password that `login` types are therefore not parameters.
- Pages reached by a click: `Login` takes the URL after submission as a parameter, and `NavigateToDataPage` takes the next page as one.
- `ExtractBloodSugarData`: takes the page's controls and the tables present after filtering as separate inputs, since the filter's effect on the page is the site's.
- Logging, `analyze_current_page`, `analyze_page_structure` and `analyze_navigation_menu`: these only write to the log.
- The catch-all exception handlers: the model has no exceptions apart from those it represents. These are a `split` that does not give two parts, an option that cannot be selected, and a missing `__VIEWSTATE`. A Selenium failure such as a stale element is not modelled.
- Floating point: values are exact `real`s, so the rounding of `float()` and of the average is not modelled.
- Unicode: `\d` is ASCII digits only, and `lower()` is ASCII lowercasing. Python also folds non-ASCII letters.
- `strptime` leniency: a space in a format matches exactly one space here. Python matches any run of whitespace.
- `Select`: `select_by_value` and `select_by_visible_text` are modelled for a single-choice `select`, selecting the first fitting option. The whitespace normalisation of visible text and multi-select are left out.
- `DataExtractor.ChooseOption`: disabled options are not modelled, so it may choose one. Selenium raises when asked to select a disabled option, which makes the source's filter fail.
- `get_attribute`: modelled as the HTML attribute. Selenium may return the DOM property instead.
- The `type` keyword selectors (`[type="text"]` and the like) compare ASCII case-insensitively, as HTML attribute selectors do for `type`. The substring selectors are case-sensitive.
- `Utils.CleanData`: one `now` stands for `datetime.now().isoformat()` for the whole call. Python reads the clock once per record.
- `Utils.RetryOnException`: `func` is modelled as a function from the call number to its outcome. The delay between attempts and the progress message are left out.
- `DataProcessor.validate_data`: the `isinstance` test is left out, because a value is a number or absent by its type.
- `wait_for_element_with_retry`, `DebugUtils`, file persistence (`Utils.save_data_as_json`, `save_data_as_csv`, `create_backup`, `setup_directories`), `src/scraper.py`, `investigate_site.py` and `config/settings.py`: driver and file plumbing. The keyword and selector lists are copied as constants.
