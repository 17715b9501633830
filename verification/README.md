# ChatHype chat-activity pipeline, in Dafny

ChatHype is a desktop tool for Twitch streams. It reads a VOD's chat log and counts the messages per time bin. It also counts the messages that mention a hype emote, and combines the two counts into a weighted "average" rate. The rates are smoothed and peaks are picked on them. Nearby peaks, or the valleys before them, are merged into highlight periods. Those periods are exported as CSV and can open the VOD at the right second. A companion script, `csvconverter.py`, reads such a CSV back and turns its `H:MM:SS` start column into seconds.

This project models that pipeline's logic and proves what it promises:

- `wrappers.dfy`: the `Option` and `Result` types.
- `text.dfy` (module `Text`): the Python string built-ins the code relies on.
  - `str.strip()` with Python's whitespace set.
  - `str.split` on one separator, and joining back.
  - `int()` on text: the whitespace `int()` skips (which leaves out U+001C to U+001F, unlike `str.strip()`), sign, ASCII digits, single `_` separators, and CPython's default limit of 4300 digits.
  - `str()` of an integer and two-digit padding.
- `chatrate.dfy` (module `ChatRate`): the worker that turns a chat log into the rate table.
  - It checks the JSON shape and finds the maximum offset.
  - It builds the `np.arange` bin edges and assigns right-open bins.
  - It counts per occupied bin, filters keyword messages, does the left merge with 0 fill, and computes `average = chat + 10·pogs`.
  - It also parses the emote-filter text.
- `smoothing.dfy` (module `Smoothing`): the Savitzky–Golay window-length normalisation.
- `highlights.dfy` (module `Highlights`): highlight detection.
  - Series selection and the left-to-right merge of extrema within 10 seconds (maximum for peaks, minimum for valleys).
  - The valley look-back over `[p − 30, p)`.
  - The chart's state as a class, `ChartSession`. Its `ComputeHighlightPeriods` clears and refills the highlight lists.
- `export.dfy` (module `Export`):
  - The exported records, with their `H:MM:SS` columns and the CSV table.
  - The jump timestamp `max(0, int(x) + offset)` and the VOD-id search for `/videos/<digits>`.
  - The jump link and the file-name sanitiser.
- `timecode.dfy` (module `Timecode`):
  - Python's `str(timedelta(seconds=n))`.
  - `timestamp_to_seconds`, and the row loop of `convert_csv` as a method over rows already split into fields.
  - The round trip from the exported start column back to seconds.

Times are exact `real` numbers, never floats. A bin is named by its index `k`, and its `time_bin` value is `k·Δ`. Three things the code depends on are parameters:

- The peak finder `scipy.signal.find_peaks` is a function argument. It returns strictly ascending indices into the series.
- The emote regex is a predicate argument.
- The way a CSV writer renders a real number is a function argument.

Where the code and its description disagree, the model follows the code:

- An empty chat log is an error (`EmptyChatLog`). It does not yield one empty bin. `pd.json_normalize([])` has no columns, so reading `content_offset_seconds` at chathype.py:290 raises KeyError.
- A log whose largest offset is 0 gives no bins and an empty table. This is because `np.arange(0, Δ, Δ)` has one edge only.
- Only bins that hold a message become rows. The `.astype(float)` on the bin labels drops the categorical type, so `observed=False` has no effect.
- A message at exactly the largest offset is counted in no bin when that offset is a multiple of Δ.

## Model

| member | source | states |
|---|---|---|
| ChatRate.ChatMessages | chathype.py:281-288 | a list gives its entries and an object with a "comments" list gives that list; every other shape fails with the invalid-format error, and only those do |
| ChatRate.MaxOffset | chathype.py:313 | the maximum offset is at least every message's offset and is the offset of some message |
| ChatRate.ArangeLength | chathype.py:314 | `arange(0, stop + Δ, Δ)` yields n + 1 edges where n·Δ ≥ stop and (n − 1)·Δ < stop |
| ChatRate.NumBins | chathype.py:313-319 | the labelled bins reach the largest offset: n·Δ ≥ max and (n − 1)·Δ < max |
| ChatRate.BinIndex | chathype.py:315-320 | a message that gets a bin k lies in [kΔ, (k+1)Δ) with k below the bin count; a message with no bin lies at or past the last edge |
| ChatRate.BinRightOpen | chathype.py:315-319 | a message lands in bin k if and only if kΔ ≤ offset < (k+1)Δ |
| ChatRate.DroppedOnlyAtMax | chathype.py:313-320 | a message gets no bin if and only if it is at the largest offset and that offset is a multiple of Δ |
| ChatRate.MaxOnEdge | chathype.py:313-320 | when the largest offset is jΔ there are j bins and the message at that offset is dropped |
| ChatRate.TimeBins | chathype.py:315-320 | each message's label is its own bin, message by message |
| ChatRate.CountOfPositive | chathype.py:322 | a bin's count is positive if and only if some message is labelled with it |
| ChatRate.GroupSizes | chathype.py:322 | the groups are occupied bins in strictly ascending order, each with its message count |
| ChatRate.GroupSizesComplete | chathype.py:322 | every occupied bin has a group |
| ChatRate.SizeOfGroups | chathype.py:340-346 | looking a bin up in the keyword groups gives its keyword count, 0 when it has none |
| ChatRate.HypeEmotes | chathype.py:293-303 | the tracked emotes are the user's list when it is non-empty and never empty |
| ChatRate.NonEmptyStripped | chathype.py:1024 | at most as many names as parts, each stripped and non-empty |
| ChatRate.NonEmptyStrippedAppend | chathype.py:1024 | the parts are filtered independently and in order: the result for a + b is the result for a followed by the result for b |
| ChatRate.NonEmptyStrippedOne | chathype.py:1024 | one part contributes its stripped text, or nothing when it is blank |
| ChatRate.NonEmptyStrippedOmits | chathype.py:1024 | a character absent from the parts is absent from the kept names |
| ChatRate.ParseEmoteFilter | chathype.py:1024 | every parsed emote is stripped, non-empty and free of commas |
| ChatRate.ParseEmoteEntry | chathype.py:1024 | a comma-free entry parses to its stripped text (" KEKW " gives "KEKW"), or to nothing when blank |
| ChatRate.ParseEmoteFirst | chathype.py:1024 | the entry before the first comma is parsed on its own, ahead of the entries after it |
| ChatRate.EmoteFilterRoundTrip | chathype.py:1024 | parsing clean names joined by bare commas gives the same names in the same order |
| ChatRate.ParseEmoteLeadingSpace | chathype.py:1024 | a space in front of the filter text changes nothing, because the first entry is stripped |
| ChatRate.FilterTextRoundTrip | chathype.py:841 | parsing the `', '.join` text the program writes back into the filter box gives the same clean names in the same order |
| ChatRate.KeepsClean | chathype.py:1024 | stripped non-empty names pass the filter unchanged |
| ChatRate.Matching | chathype.py:327 | the keyword messages are no more than all messages |
| ChatRate.MatchingKeeps | chathype.py:327 | a message is kept if and only if it is one of the messages and its body matches an emote |
| ChatRate.MatchingAppend | chathype.py:327 | messages are matched independently and kept in their original order |
| ChatRate.MatchingOne | chathype.py:327 | one message is kept when its body matches and dropped otherwise |
| ChatRate.MatchingCountAtMost | chathype.py:327-334 | in every bin the keyword count is at most the message count |
| ChatRate.BinStart | chathype.py:319 | a row's time_bin value is non-negative |
| ChatRate.CombineRates | chathype.py:339-347 | one row per base row, in order, with the base count, the keyword count (0 when missing) and average = chat + 10·pogs |
| ChatRate.RateTable | chathype.py:313-347 | the table of a non-empty log: occupied bins in ascending order with their chat, pogs and average rates; its properties are stated by RateTableRow, RateTableComplete and RateTableAscending |
| ChatRate.ProcessChatLog | chathype.py:274-347 | a bad shape fails with the format error, an empty log fails as empty, and processing succeeds exactly otherwise |
| ChatRate.RateTableAscending | chathype.py:322 | the rows' bins, and so their time_bin values, strictly increase |
| ChatRate.LaterBinLaterStart | chathype.py:319 | a later bin has a later time_bin value |
| ChatRate.CombinedRow | chathype.py:340-347 | each combined row holds a positive message count, its keyword count and the weighted average |
| ChatRate.CombinedComplete | chathype.py:340-345 | every occupied bin has a row in the combined table |
| ChatRate.RateTableRow | chathype.py:313-347 | each row of the table counts the messages and keyword messages of its own bin, and average = chat + 10·pogs |
| ChatRate.RateTableComplete | chathype.py:313-322 | every bin that some message falls into is a row |
| ChatRate.PogsAtMostChat | chathype.py:327-347 | in every row of a successful run, 0 ≤ pogs ≤ chat |
| ChatRate.EmptyFilterUsesDefaults | chathype.py:293-303 | an empty emote list behaves exactly as the built-in list |
| Smoothing.WindowLength | chathype.py:936-943 | the window is odd; it is the user's window, made odd, when the series is long enough; otherwise it is the largest odd count not above the rows, or 3 for fewer than 3 rows; it never exceeds a series of 3 or more rows |
| Smoothing.FloorRejected | chathype.py:937-943 | a four-row series, or a window of 1 or 3, gets a window the order-3 filter rejects |
| Smoothing.FittedWindowLength | chathype.py:936-943 | the corrected window is odd, at least 5, accepted by the filter on any series of 5 or more rows, and equal to the original wherever that one is at least 5 |
| Text.Strip | chathype.py:1024 | `str.strip()` with Python's whitespace set; StripSlice states that it returns the middle slice between whitespace-only ends, and StripEnds, StripKeeps, StripChars and StripUnpadded add the rest |
| Text.StripSlice | chathype.py:1024 | the stripped text is one contiguous slice s[i..j] of the original, and everything before i and from j on is whitespace |
| Text.StripEnds | chathype.py:1024 | a stripped string is no longer and neither starts nor ends with whitespace |
| Text.StripUnpadded | chathype.py:1674 | stripping a string without surrounding whitespace leaves it unchanged |
| Text.Split | csvconverter.py:9 | splitting gives at least one part and no part holds the separator |
| Text.JoinSplit | csvconverter.py:9 | joining the parts of a split gives back the text |
| Text.SplitJoin | csvconverter.py:9 | splitting the join of separator-free parts gives back the parts |
| Text.ParseNatToString | csvconverter.py:9 | `int()` reads back the decimal text of n when it has at most 4300 digits, and raises ValueError on a longer one |
| Text.NatToStringLength | csvconverter.py:9 | the decimal text of n has at most k digits exactly when n < 10^k, so the 4300-digit limit is n < 10^4300 |
| Text.ParseIntToString | chathype.py:1674 | `int()` reads back the decimal text of an integer, sign included, when it has at most 4300 digits, and raises ValueError otherwise |
| Text.ParseInt | chathype.py:1674 | `int()` on text, its body being the grammar of base-10 `int()`: skip `int()`'s whitespace (IntStrip), optional sign, digits with single `_` between them, at most 4300 digits; ParseNatToString and ParseIntToString give the round trips with `str()` and the digit limit, ParseIntChars the character set of accepted text, ParseIntRejects the malformed texts and ParseIntSeparator the U+001C to U+001F padding it turns down |
| Text.IntStrip | chathype.py:1674 | the whitespace `int()` skips, removed at both ends; IntStripAfterStrip states that after `str.strip()` nothing is left for it to remove |
| Text.ParseIntSeparator | csvconverter.py:9 | a U+001C to U+001F character at either end makes `int()` raise ValueError, though `str.strip()` would remove it |
| Text.IntStripAfterStrip | chathype.py:1674 | on text already passed through `str.strip()`, `int()`'s own whitespace skipping changes nothing |
| Text.ParseIntRejects | chathype.py:1674 | blank text, an underscore at either end or right after the sign, a doubled sign and a doubled underscore (after `int()`'s whitespace skipping) all raise ValueError (`None`) |
| Text.ParseIntChars | chathype.py:1674 | text that `int()` accepts holds only digits, underscores, signs and the whitespace `int()` skips |
| Timecode.TimestampToSeconds | csvconverter.py:7-12 | text that does not split into exactly three parts is a ValueError |
| Timecode.TimestampAccepted | csvconverter.py:9-12 | a timestamp converts if and only if it has three fields that `int()` accepts; every failure is a ValueError |
| Timecode.BadFieldRejected | csvconverter.py:9 | three fields, one of which `int()` rejects, give a ValueError |
| Timecode.FieldsValue | csvconverter.py:9-11 | three colon-free fields that `int()` accepts give h·3600 + m·60 + s |
| Timecode.DecimalFieldsValue | csvconverter.py:9-11 | decimal fields of any value give h·3600 + m·60 + s when each has at most 4300 digits, and a ValueError otherwise |
| Timecode.NoRangeCheck | csvconverter.py:9-11 | minutes and seconds up to 99 are accepted unchecked, so 0:90:00 reads as 5400 (an hour field over 4300 digits is a ValueError) |
| Timecode.TimedeltaText | chathype.py:1381 | `str(timedelta(seconds=n))`; ClockFields, ClockRoundTrip and LongTimestampRejected state what it gives |
| Timecode.ClockFields | chathype.py:1381 | below one day, the timedelta text is the plain H:MM:SS clock |
| Timecode.ClockTextValue | csvconverter.py:7-12 | the H:MM:SS clock of n reads back as n |
| Timecode.ClockRoundTrip | csvconverter.py:7-12 | for 0 ≤ n < 86400 the timedelta text of n reads back as n |
| Timecode.LongTimestampRejected | csvconverter.py:9 | a timedelta text of a day or more ("1 day, 0:00:00") is a ValueError |
| Timecode.RowSeconds | csvconverter.py:27-28 | column 4 of a row read as a timestamp, an IndexError for a shorter row; ConvertOneRow states its effect on the output |
| Timecode.RowOutcomes | csvconverter.py:24-28 | one outcome per row |
| Timecode.ConvertRowsAppend | csvconverter.py:24-32 | the rows are converted independently and in order |
| Timecode.ConvertOneRow | csvconverter.py:25-32 | a row whose fifth column parses writes its seconds; any other row writes nothing |
| Timecode.ConvertRowsBound | csvconverter.py:24-32 | no more outputs than rows |
| Timecode.ConvertRowsAllGood | csvconverter.py:24-30 | when every row converts, the output is exactly those values in order |
| Timecode.SkipBadRow | csvconverter.py:31-32 | a failing row is skipped without affecting the rows around it |
| Timecode.ConvertTable | csvconverter.py:19-32 | the first row is consumed as a header whatever it holds and the rest are converted; ConvertCsv computes it and ExportConvertRoundTrip reads an export with it |
| Timecode.ConvertCsv | csvconverter.py:14-32 | the loop writes the converted rows after the header, which it always consumes; at most one fewer than the rows |
| Highlights.RateName | chathype.py:1526-1531 | every rate has a non-empty column name |
| Highlights.SelectedRate | chathype.py:1525-1531 | average wins whenever ticked, then pogs, then chat, each case an if-and-only-if |
| Highlights.GroupsOf | chathype.py:1568-1584 | the merged groups cover the extrema in order, each non-empty and each starting right after the previous one; by its definition an extremum within 10 seconds of the current end extends the current group (lines 1573-1575) and one further away opens a new group (lines 1576-1580) |
| Highlights.GapBetweenGroups | chathype.py:1573-1580 | consecutive periods are more than 10 seconds apart |
| Highlights.StepsWithinGroup | chathype.py:1573-1575 | within a period consecutive extrema are at most 10 seconds apart |
| Highlights.GroupsIncreasing | chathype.py:1568-1584 | an earlier period ends before a later one starts |
| Highlights.ExactlyOneGroup | chathype.py:1568-1584 | every extremum lies in exactly one period |
| Highlights.MergePrefixGroups | chathype.py:1568-1580 | after every step the loop's closed periods, open period and running value agree with the groups so far |
| Highlights.MergeClosed | chathype.py:1582-1584 | after the loop, appending the open period gives exactly the merged periods and values |
| Highlights.Better | chathype.py:1575 | the running value is one of its two inputs and the larger (peaks) or smaller (valleys) |
| Highlights.Extreme | chathype.py:1575 | a period's value bounds every member from above (peaks) or below (valleys) |
| Highlights.ExtremeAttained | chathype.py:1575 | a period's value is the value of one of its members |
| Highlights.MergeExtrema | chathype.py:1562-1584 | the loop yields the merged periods and values of the specification |
| Highlights.MergedSpans | chathype.py:1562-1584 | the periods the merge produces from a list of extremum times; MergedSpansAt and MergedSpansOrdered state them |
| Highlights.MergedSpansAt | chathype.py:1582-1584 | one period per group, starting at the time of the group's first extremum and ending at that of its last, so every start and end is an input time |
| Highlights.MergedValues | chathype.py:1562-1584 | the value the merge keeps for each period; MergedValuesAt and MergedValueOfGroup state them |
| Highlights.MergedValuesAt | chathype.py:1575 | one value per group: the running max (peaks) or min (valleys) over that group's extremum values |
| Highlights.MergedSpansOrdered | chathype.py:1568-1584 | on ascending times each period starts no later than it ends and is more than 10 seconds before the next |
| Highlights.MergedValueOfGroup | chathype.py:1575 | each period's value is the maximum (peaks) or minimum (valleys) of its members and is attained by one of them |
| Highlights.WindowMinRow | chathype.py:1611-1631 | the valley row is in [p − 30, p), has the least value there and is the first such row; no row means the window is empty |
| Highlights.WindowMinMonotone | chathype.py:1610-1634 | on strictly ascending times, a later peak never gets an earlier valley row |
| Highlights.ValleyRows | chathype.py:1610-1634 | at most one valley per peak, each a row of the series |
| Highlights.ValleyRowsAppend | chathype.py:1610-1634 | the peaks are searched independently: the valleys of a + b are those of a followed by those of b |
| Highlights.ValleyRowsOne | chathype.py:1610-1634 | one peak contributes exactly its own window minimum row, or nothing when its window holds no row |
| Highlights.ValleyOfSomePeak | chathype.py:1610-1634 | each valley is the window minimum of some peak |
| Highlights.ValleyCount | chathype.py:1625-1626 | there are exactly as many valleys as peaks with a non-empty window |
| Highlights.ValleyRowsSorted | chathype.py:1610-1634 | with ascending peaks, the valley rows are non-decreasing |
| Highlights.ValleyTimesSorted | chathype.py:1633 | with ascending peaks, the valley times the merge consumes are non-decreasing |
| Highlights.FindValleys | chathype.py:1607-1634 | the loop collects the time and value of each found valley, in peak order |
| Highlights.Pick | chathype.py:1559-1560 | the picked entries are the column's entries at the given rows, in row-list order |
| Highlights.PeakTimesAscending | chathype.py:1559 | the times of strictly ascending peak rows ascend |
| Highlights.HighlightSpans | chathype.py:1546-1662 | the periods of one detection: the merged peak times, or the merged valley times of the peaks; ordered as HighlightsOrdered states |
| Highlights.HighlightValues | chathype.py:1546-1662 | the value of each period: the largest peak value, or the smallest valley value, as MergedValueOfGroup states |
| Highlights.HighlightsOrdered | chathype.py:1562-1662 | in both modes each period starts no later than it ends and is more than 10 seconds before the next |
| Highlights.Tagged | chathype.py:1586-1588 | one period per merged span, all carrying the selected rate |
| Highlights.ChartSession.constructor | chathype.py:1055-1056 | a session starts with no highlights |
| Highlights.ChartSession.AppendPeriods | chathype.py:1586-1588 | the lists grow by the tagged spans and their values, in order |
| Highlights.ChartSession.ComputeHighlightPeriods | chathype.py:1504-1662 | earlier highlights are cleared; the new ones are the detected periods of the selected series, each tagged with its rate, with their values |
| Highlights.DetectHighlights | chathype.py:1546-1658 | peaks are merged directly, or their valleys are found and merged, with one value per period |
| Export.Trunc | chathype.py:1670 | `int(x)` truncates toward zero |
| Export.TruncTowardZero | chathype.py:1670 | truncation keeps the sign and agrees with the floor on whole numbers |
| Export.Record | chathype.py:1376-1383 | the export row of one period and value; RecordFields states its fields |
| Export.ExportRecords | chathype.py:1374-1383 | one record per period and value pair, as many as the shorter list |
| Export.RecordFields | chathype.py:1375-1383 | each record copies start, end, rate name and value, and its clock columns read back as `int(start)` and `int(end)` within a day |
| Export.ExportHighlights | chathype.py:1360-1383 | nothing is exported if and only if there are no periods; otherwise the records of the periods, in order |
| Export.CsvTable | chathype.py:1384-1385 | the table is the header and then one row per record, with the start clock in the fifth column |
| Export.ExportConvertRoundTrip | chathype.py:1374-1385 | converting the exported table gives back `int(start)` of every period, in order, when all start within a day |
| Export.ExportLateStartSkipped | chathype.py:1381 | the converter skips the row of a period starting a day or more in |
| Export.OffsetValue | chathype.py:1673-1676 | the offset is `int()` of the stripped text, or 0 when that fails |
| Export.JumpTimestamp | chathype.py:1679 | the jump second is `int(x) + offset`, or 0 when that is negative |
| Export.JumpWithOffset | chathype.py:1670-1679 | a padded integer offset is applied in full; one over 4300 digits counts as 0 |
| Export.JumpWithBadOffset | chathype.py:1673-1679 | an unparsable offset counts as 0 |
| Export.DigitRun | chathype.py:1682 | the digit run is the longest run of digits at that position |
| Export.VodIdFrom | chathype.py:1682 | a found id is a non-empty run of digits |
| Export.VodId | chathype.py:1682 | `re.search(r'/videos/(\d+)', text)`; VodIdAbsent and VodIdLeftmost state what it finds |
| Export.VodIdAbsent | chathype.py:1682-1687 | no id is found if and only if no "/videos/" followed by a digit occurs |
| Export.VodIdLeftmost | chathype.py:1682-1684 | the id is the whole digit run after the leftmost match |
| Export.VodUrlRoundTrip | chathype.py:1684-1685 | the id is found again in the link built from it |
| Export.JumpLink | chathype.py:1681-1693 | there is a link if and only if the VOD box holds an id |
| Export.SanitizeFilename | chathype.py:182 | same length; kept characters stay and every other becomes `_` |
| Export.SanitizeIdempotent | chathype.py:182 | the result holds only kept characters, clean names are unchanged, and sanitising twice equals sanitising once |

## Left out

- Reading the chat file and `json.load` are not modelled. The decoded document is an input: a list of comments, an object that may hold `comments`, or anything else. `pd.json_normalize` is not modelled either: a comment is its offset and body.
- The emote regex `\b(?:…)\b` with `re.IGNORECASE` is a predicate parameter, because regex semantics are not modelled. A message counts once whatever it matches.
- `scipy.signal.find_peaks` is a function parameter. It is foreign numerical code. Its result is assumed to be strictly ascending row indices.
- `savgol_filter` and the spline interpolation are floating-point library numerics. Only the window length is modelled. The smoothed series are inputs of `ChartSession`.
- The re-smoothing call at the start of `compute_highlight_periods` is not modelled. The session always holds smoothed series.
- Floating-point rounding of `np.arange` and of the float bin labels is not modelled. Times are exact reals, and a bin is its index `k` with label `k·Δ`.
- NaN handling in pandas is not modelled. An empty comment list is the `EmptyChatLog` error, standing for the KeyError of the missing `content_offset_seconds` column.
- The export's file dialog, its cancel path, the message boxes and the CSV writer's file I/O are not modelled. Rendering a real number in the CSV is a function parameter. `Export.CsvRow` is the row as a CSV reader hands it back, after unquoting. The quoting itself is not modelled; `to_csv` quotes a field such as "1 day, 0:00:00", which holds a comma.
- `convert_csv` opening, reading and writing files is not modelled. Its input is the rows as a CSV reader yields them, and its output is the written values.
- `webbrowser.open` is not modelled. `Export.JumpLink` returns the URL it would open.
- `sys.set_int_max_str_digits` and the `PYTHONINTMAXSTRDIGITS` setting are not modelled. `int()` uses the default limit of 4300 digits; Python releases that predate the limit accept longer literals.
- `\w` and `\d` are taken as ASCII. Unicode letters and Unicode decimal digits are not modelled, neither in the sanitiser nor in `int()`.
- Download and render threads, subprocess calls, configuration save and load, Qt widgets, plotting and the slider scaling are not modelled. They are I/O, concurrency or UI.
- Export.JumpLink: states only when a link exists. The link's text is its definition (VOD URL, `?t=`, the jump second, `s`).
- Timecode.TimestampToSeconds: its own contract states only the split-count error. Its values are stated in `FieldsValue`, `DecimalFieldsValue` and `NoRangeCheck`, and its errors in `TimestampAccepted`, `BadFieldRejected` and `LongTimestampRejected`.

## Findings

| source | as written | input that shows it | evidently intended | confidence | as-written member | corrected member |
|---|---|---|---|---|---|---|
| chathype.py:942-943 | a window shorter than 3 is raised to 3, and a user window of 1 or 3 is kept, with polyorder 3 | a 4-row series (window 3), or a smoothing window of 1 or 3 on any series | a window the Savitzky–Golay filter accepts, which must exceed the polynomial order 3 | not executed | Smoothing.FloorRejected | Smoothing.FittedWindowLength |
