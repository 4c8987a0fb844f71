# A verified model of the C utility library and the RPC generator

This project models the parts of the repository that compute something difficult, and proves what they are for.
`dafny verify dfyconfig.toml` checks all of it.

* **Calendar engine** (`CInt`, `Calendar`, `BrokenDown`, `Zones`, `Rules`, `Normalize`, `Mktime`, `MktimeZones`).
  Seconds to broken-down time, zone lookup with the 400-year fold, POSIX TZ rules, field normalisation, and the binary
  search that inverts the conversion, for any conversion and for localsub. `Calendar.TmOf` is the reference meaning of
  a broken-down time; `Calendar.CountedDays` counts the days of the years one by one and is the reference for the
  closed leap-year formula.
* **Formatter** (`YearText`, `IsoWeek`, `FormatText`, `FormatWords`, `FormatEnds`, `BoundedFormat`). Year text, ISO 8601
  weeks, what every conversion prints under every flag, what a format expands to and which formats and calls end, and
  the bounded writer of `strftime_tz`, proved to store as much of the text as fits.
* **Generated RPC** (`RpcFrames`, `RpcTransport`, `RpcReceive`, `RpcEndToEnd`, `RpcProtocol`). Encoding and decoding
  for an arbitrary list of arguments, the sending thread, the receive loop, the two joined, and the concurrent runtime
  as a step system: any number of callers, one receive thread, the pending-call table and the sweep when the
  connection dies. Every `pthread_mutex` section is one step, and so is every unlocked store and signal.
* **Hash map** (`HashMap`). Pointer chains relinked in place, against a finite map.
* **Codecs** (`Utf`). Modified UTF-8 and UTF-16: two length passes and two copies.
* **Record stream** (`RecordStream`), **config parser** (`Config`, `ConfigLexer`) and **selector** (`Selector`).

Machine integers: C division and remainder truncate (`CInt.Div`, `CInt.Mod`). `int` is 32 bits; `long` is 32 or 64
bits, by a parameter; `time_t` is 32 bits in the search of `Mktime`, and a mathematical integer in `timesub`,
`localsub` and `transtime`. In the codecs `char16_t` is `bv16`, a byte `bv8` and a code point `bv32`. The hash mixes
32-bit words with wrap-around.

Where the code does less than one might expect, the model keeps the code and a member states exactly when it works:

* A synchronous caller is lost for good exactly when its 32-bit message id is still in the table
  (`RegisterIffFreshId`, `StrandedForever`); `IdReuseStrands` gives the schedule, and with fewer than 2^32 calls it
  cannot happen (`FewCallsNeverReuse`).
* The size check before unpacking adds the announced lengths in a 32-bit size_t. It is right exactly when that sum does
  not wrap, or wraps to more than the frame (`CheckIsRightIff`, `WrappedSumAccepted`); frames made by a stub never wrap
  it (`StubFramesAccepted`).
* A failed `send` drops the rest of a frame and goes on with the next. The queued frames arrive exactly when no send
  failed (`ArriveIffNoFailure`); `CutFrame` says what arrives otherwise. Frames of 50 MiB or more end the receive loop
  (`ReceivedIffBelowLimit`).
* The receive loop reads a header again after EAGAIN and drops what it had of it. A stream of whole frames arrives
  whole exactly when nothing was dropped and nothing left unread (`WholeFramesIff`); `DroppedHeader` is a loss. Over
  both ends, posted values arrive exactly when neither happened and no send failed (`ArrivedIff`).
* `selectorWakeUp` only logs a write interrupted by a signal. Left to itself, the loop then blocks for good with the
  change unseen exactly when it is about to block, has not seen the change, the pipe is empty and no other waker is
  going to write (`InterruptedWriteLosesIff`, `InterruptedWriteLoses`).
* A printed configuration loads back exactly when no block is followed by a sibling of the same name
  (`ConfigRoundTrip`); unique sibling names are enough (`UniqueNamesSeparate`).
* `%-Y` prints 2005 as 205. It reads back exactly when the year has no century or its last two digits do not start
  with a zero (`UnpaddedYear`).
* `strlen8to16` counts one unit too many for each four-byte lead that does not become a surrogate pair (`TwoPasses`);
  the buffer is never too small, and exact if and only if there is no such lead (`CopyFits`).
* A dotted configuration line loads as nested blocks do exactly when the blocks would make a new child
  (`DottedLikeBlocks`).
* A format's text is finite exactly when it does not lead to a chain of locale formats running into itself
  (`HasTextIff`). The writer stops at the limit only where it copies a character, so with other formats it may return,
  with a full buffer, or recurse without end: every call returns exactly when no chain of locale formats, each
  referred to ahead of its predecessor's first copied character, runs into itself (`EveryCallReturnsIff`);
  `ReturnsForAllIff` is the condition for one format and every buffer, and `ReturnsIff` bounds the nesting of one call
  that returns.
* `mktime` undoes `localtime` where no step back of the clock is longer than the period before or after it
  (`RoundTripSmooth`); with a shorter period the search can miss a time (`ShortPeriodLosesTime`).
* The two attempts of `time2` can answer differently for one request (`AttemptsDiffer`); the answer is that of the
  first attempt wherever it has one (`Time2`).
* A record length so large that the end address wraps around can be mistaken for a whole record (`EndTestIff`); that
  takes a length above `maxRecordLen` (`AstrayIsTooLong`).
* The comment above `record_stream_get_next` says that lengths have 16 bits; the code reads 32, and so does the model.
* The sortedness check at `utils/libcutils/tztime.c:541` stops one pair early; the model takes sorted transition times
  as given.

## Model

| member | source | states |
|---|---|---|
| CInt.WrapFits | utils/libcutils/tztime.c:1584-1587 | A value stored through `unsigned` into an int is always an int, and is unchanged exactly when it was in range |
| CInt.IncrementOverflow | utils/libcutils/tztime.c:1579-1611 | Overflow is reported exactly when the true sum leaves the int (or long) range; otherwise the sum is stored |
| Calendar.LeapsStep | utils/libcutils/tztime.c:1391-1397 | Consecutive leap counts differ by one exactly at a leap year, for every integer year, negative ones included |
| Calendar.LeapsFloor | utils/libcutils/tztime.c:1391-1397 | The recursion for negative years computes floor(y/4) - floor(y/100) + floor(y/400) on every integer |
| Calendar.JanFirstCountsDays | utils/libcutils/tztime.c:1462-1465 | The day number built from leap counts equals counting whole years one by one from 1970, forwards and backwards |
| Calendar.YearSpan | utils/libcutils/tztime.c:1453-1465 | Any k consecutive years hold between 365k and 366k days, the bound behind the year jump |
| Calendar.JanFirstMonotone | utils/libcutils/tztime.c:1462-1466 | Later years start later, and a year ends before any later year starts |
| Calendar.GregorianRepeat | utils/libcutils/private.h:344-358 | Any number of 400-year cycles moves the calendar by 146097 days each and repeats the leap years |
| Calendar.MonthStartMonotone | utils/libcutils/tztime.c:1522-1524 | The months of a year do not overlap and follow in order |
| BrokenDown.YearJumpStopsAtTarget | utils/libcutils/tztime.c:1447-1467 | Every jump of the year loop moves strictly toward the year that holds the day and never passes it |
| BrokenDown.HugeJump | utils/libcutils/tztime.c:1453-1456 | When the jump does not fit an int, the year sought does not fit either, so NULL is the right answer |
| BrokenDown.JumpToYear | utils/libcutils/tztime.c:1444-1467 | The loop ends with the year of the day and conserves days(y) + tdays; it returns NULL exactly when that year is not an int |
| BrokenDown.CarryDays | utils/libcutils/tztime.c:1479-1487 | The remainder loops keep the total number of seconds and end with 0 <= rem < 86400 |
| BrokenDown.CarryYear | utils/libcutils/tztime.c:1488-1497 | A day index that left its year is carried to the year holding that day, or overflow is reported exactly when that year is not an int |
| BrokenDown.WeekdayCountsDays | utils/libcutils/tztime.c:1505-1513 | The weekday formula with its early remainders is the day count from Thursday 1 January 1970 modulo 7, for every year |
| BrokenDown.MonthAndDay | utils/libcutils/tztime.c:1522-1525 | The month loop finds the one month and day of the month of a day of the year |
| BrokenDown.TimeSub | utils/libcutils/tztime.c:1399-1531 | For every t and offset: a result exists exactly when the years involved are ints, its fields are in range and denote t + offset, with the day of the year and weekday of that day |
| BrokenDown.AssembledIsTmOf | utils/libcutils/tztime.c:1498-1526 | Fields filled in one by one determine the unique broken-down form of the second |
| Zones.FoldLandsInTable | utils/libcutils/tztime.c:1196-1220 | A folded time lies inside the table: the "cannot happen" branch is unreachable and the recursion is one level deep |
| Zones.TmOfRepeat | utils/libcutils/tztime.c:1222-1232 | Moving a time by whole 400-year cycles changes only the year of its broken-down form |
| Zones.FoldedAnswer | utils/libcutils/tztime.c:1221-1233 | The answer at a folding time is the answer at the folded time with its year moved back, NULL only when that year is not an int |
| Zones.PlainAnswer | utils/libcutils/tztime.c:1262-1263 | Inside the table the answer is timesub's at t with the offset of the type in force, and carries that type's daylight flag |
| Zones.FindTransition | utils/libcutils/tztime.c:1243-1253 | The binary search returns the last transition at or before t |
| Zones.FindStandard | utils/libcutils/tztime.c:1235-1241 | Before the first transition the first standard-time type rules, or type 0 when all are daylight types |
| Zones.LocalSub | utils/libcutils/tztime.c:1181-1272 | For every loaded zone table and every t: the local time of t itself under the ruling type, folded or not |
| Rules.RuleNamesOneDay | utils/libcutils/tztime.c:846-911 | A Jn, n or Mm.n.d rule names at most one day of a year |
| Rules.ZellerCountsDays | utils/libcutils/tztime.c:882-889 | Zeller's congruence with C remainders agrees with counting days from the epoch for every month from year 1 on |
| Rules.NthWeekday | utils/libcutils/tztime.c:896-904 | The loop finds the n-th given weekday of a month, and the last one for n = 5 |
| Rules.TransTime | utils/libcutils/tztime.c:832-920 | The result is midnight of the day the rule names (section 8.3 of POSIX.1-2008 Base Definitions), plus the rule's time and the offset, for every year from 1 on |
| Normalize.NormalizeOverflow | utils/libcutils/tztime.c:1613-1641 | The units end in [0, base), the value is conserved, and overflow is reported exactly when the tens leave their type |
| Normalize.Anniversary | utils/libcutils/tztime.c:1699-1710 | One year from any date is the length of year `y + (1 < tm_mon)`, the choice both day loops make |
| Normalize.NormalizeDate | utils/libcutils/tztime.c:1699-1721 | The three loops over tm_mday end with the date of the day they start from; they fail only when its year is out of range of a long |
| Normalize.RollMonths | utils/libcutils/tztime.c:1711-1721 | The last loop goes on month by month to the date of the day; it fails only when that day's year is out of range |
| Normalize.SetAsideSeconds | utils/libcutils/tztime.c:1727-1745 | tm_sec comes into 0..59, what is set aside adds back to it, and overflow is reported exactly when that is not an int |
| Normalize.CarryUnits | utils/libcutils/tztime.c:1680-1698 | The carries from seconds to years keep every unit's value, and fail exactly when one of them leaves its type |
| Normalize.NormalizeRequest | utils/libcutils/tztime.c:1680-1745 | Normalisation conserves the denoted instant, ends with every field in range, and fails exactly when a carry leaves its type |
| Mktime.SixLessIsEarlier | utils/libcutils/tztime.c:1643-1657 | Of two valid broken-down times the lexicographically smaller one is earlier |
| Mktime.TmCompOrdersInstants | utils/libcutils/tztime.c:1643-1657 | tmcomp of valid times less than 2^31 years apart has the sign of the difference of their instants, and is 0 exactly for equal fields |
| Mktime.TmCompZero | utils/libcutils/tztime.c:1643-1657 | Even where the year difference wraps, tmcomp is 0 exactly when all six fields agree |
| Mktime.Bisect | utils/libcutils/tztime.c:1758-1795 | The search ends whatever the conversion answers, after at most 36 calls of it; what it finds matches the request, it never discards a target that every probe points to, and it finds a match wherever any two probes have one between them |
| Mktime.SearchSteered | utils/libcutils/tztime.c:1763-1795 | A target that every probe points to is found from any bounds around it |
| Mktime.SearchGuided | utils/libcutils/tztime.c:1763-1795 | If there is a match on the side, or between any two probes, where they send the search, it finds one, nudged bounds included |
| Mktime.FewProbes | utils/libcutils/tztime.c:1763-1795 | With at most 2^k + 2 times between its bounds the search calls the conversion at most k + 4 times |
| Mktime.FindTime | utils/libcutils/tztime.c:1763-1832 | Search and hunt together find a time with the requested fields and flag, wherever the probes guide to one and types shift to the right flag |
| Mktime.HuntType | utils/libcutils/tztime.c:1811-1832 | The hunt over pairs of types succeeds exactly when some pair gives the right time with the right daylight flag, and then with the time of the first such pair in its order |
| Mktime.HuntIsLast | utils/libcutils/tztime.c:1811-1832 | That pair is the last one by its first type, and among those the last by its second |
| Mktime.WrappedSum | utils/libcutils/tztime.c:1835-1837 | The comparison after the addition detects exactly the sums that overflow a 32-bit time_t |
| Mktime.AddSaved | utils/libcutils/tztime.c:1834-1841 | okay is set exactly when the sum is a time_t that has a local form; the request is written over exactly when the sum is a time_t, and then t is the sum |
| Mktime.Time2Sub | utils/libcutils/tztime.c:1659-1842 | For any conversion: an answer less the saved seconds maps to the normalised request with the requested flag; where all probes point to one time, that time is found; where they guide to some match and types shift, there is an answer; there is one exactly when the search, or the hunt from what it found, comes to a time, and then it is that time plus the saved seconds; without an answer the request is unchanged unless the last conversion failed |
| MktimeZones.NarrowNeverFails | utils/libcutils/tztime.c:1196-1263 | With 32-bit transition times and offsets localsub converts every 32-bit time |
| MktimeZones.AnswerDenotesRequest | utils/libcutils/tztime.c:1834-1841 | At any zone an answer plus the offset in force denotes the requested instant |
| MktimeZones.FixedClockSteers | utils/libcutils/tztime.c:1763-1795 | On a clock at a fixed offset every probe of the search points toward the instant sought |
| MktimeZones.ExtremesSteer | utils/libcutils/tztime.c:1769-1776 | On a clock that can only be read between two times around 0, every probe, those that cannot be read included, points toward the instant sought |
| MktimeZones.PeriodsFollow | utils/libcutils/tztime.c:1243-1253 | If no step back is longer than the periods beside it, later periods start and end later on the clock |
| MktimeZones.SmoothGuides | utils/libcutils/tztime.c:1763-1795 | At such a zone any two probes have between them a time at which the clock shows the request, if it ever shows it |
| MktimeZones.TypesShift | utils/libcutils/tztime.c:1811-1832 | A time with the right fields and the wrong flag is moved by the offsets of two types to one with the right flag, if there is one |
| MktimeZones.Time2SubLocal | utils/libcutils/tztime.c:1659-1842 | With localsub at any zone every answer denotes the request; at a zone whose steps back are no longer than the periods beside them there is an answer whenever the clock shows the request; at a fixed offset okay is set exactly for representable requests, with the one right answer; everywhere the answer is that of search, hunt and saved seconds |
| MktimeZones.Time2 | utils/libcutils/tztime.c:1844-1862 | If the first attempt, without normalised seconds, has an answer, that is the answer; otherwise it is what the second, with normalised seconds, gives for the request or for what a failed conversion left of it. It denotes the request; at a zone whose steps back are no longer than the periods beside them there is one if the clock shows the request either way, and it is a time the clock shows without normalised seconds if there is such a time; at a fixed offset there is one exactly for requests representable either way |
| MktimeZones.AttemptsDiffer | utils/libcutils/tztime.c:1855-1861 | 7200 seconds past one o'clock before the clocks go forward in New York in 2005: without normalised seconds the one answer is 1112515200, with them 1112511600 |
| MktimeZones.RoundTrip | utils/libcutils/tztime.c:1643-1862 | At every fixed offset, for every 32-bit t: feeding the local form of t back sets okay and returns t |
| MktimeZones.RoundTripSmooth | utils/libcutils/tztime.c:1643-1862 | At every table of 32-bit times whose steps back are no longer than the periods beside them, for every 32-bit t: the local form of t goes back to a time with the same local form, daylight flag included |
| MktimeZones.ShortPeriodLosesTime | utils/libcutils/tztime.c:1763-1795 | A zone with 200 seconds of daylight time of one hour: the clock shows 200 at time 200, and the search finds no time |
| YearText.SplitAddsUp | utils/libcutils/tzstrftime.c:697-707 | The two parts add up to a + b and have one sign, and for int a and b no intermediate sum leaves the int range |
| YearText.YearReadsBack | utils/libcutils/tzstrftime.c:684-720 | For all a and b the default year text reads back as a + b and has at least four characters |
| YearText.CenturyThenYear | utils/libcutils/tzstrftime.c:676-682 | The century text followed by the two-digit text is the whole year text, under every padding |
| YearText.YearTextInjective | utils/libcutils/tzstrftime.c:684-720 | Different years print differently |
| YearText.UnpaddedYear | utils/libcutils/tzstrftime.c:711-718 | Without padding the text reads back if and only if the year has no century or its last two digits do not start with a zero |
| YearText.ConvFitsBuffer | utils/libcutils/tzstrftime.c:619-630 | Every int under every format given to _conv fits its stack buffer with the terminator |
| IsoWeek.LeapSumIsLeap | utils/libcutils/tzfile.h:164-178 | Reducing both summands modulo 400 first does not change whether the sum is a leap year |
| IsoWeek.IsoYearWeek | utils/libcutils/tzstrftime.c:418-459 | The loop behind %V, %G and %g ends for any fields, consistent or not, with the values of its defining recursion |
| IsoWeek.IsoLoopIsWeek | utils/libcutils/tzstrftime.c:393-459 | For the fields of any day the loop takes at most two rounds and yields the year and the number (1..53) of the Monday-to-Sunday week's Thursday, as in section 3.2.2 of ISO 8601:2004 |
| FormatText.DeeperIsSame | utils/libcutils/tzstrftime.c:145-617 | The expansion of a format does not depend on how deep formats may nest |
| FormatEnds.HasTextIff | utils/libcutils/tzstrftime.c:205-225 | For every format: its text is finite if and only if the format does not lead to a chain of locale formats that runs into itself, and then within five levels of formats |
| FormatEnds.EveryTextIff | utils/libcutils/tzstrftime.c:205-225 | Every format has a finite text if and only if no locale format leads back to itself, if and only if the four of them have theirs within four levels |
| FormatEnds.FiniteIsStored | utils/libcutils/tzstrftime.c:145-617 | A call with a finite text returns for every buffer, having stored as much of it as fits |
| FormatEnds.StoredText | utils/libcutils/tzstrftime.c:145-617 | A call that returns has stored a finite text as far as it fits, or filled the buffer, and in both cases the front of what any larger buffer gets |
| FormatEnds.LoopAheadNeverReturns | utils/libcutils/tzstrftime.c:154-225 | A format that refers, ahead of its first copied character, to a chain of such references that runs into itself returns for no buffer |
| FormatEnds.NoRoomReturnsIff | utils/libcutils/tzstrftime.c:612-616 | For every format: with an empty buffer the call returns if and only if there is no such chain |
| FormatEnds.ReturnsForAllIff | utils/libcutils/tzstrftime.c:145-617 | For every format: the call returns for every buffer if and only if no chain of calls, each reached before a full buffer stops its caller, comes to such a chain |
| FormatEnds.EveryCallReturnsIff | utils/libcutils/tzstrftime.c:145-617 | Every format returns for every buffer, if and only if every format does for the empty one, if and only if no chain of locale formats, each ahead of its predecessor's first copied character, runs into itself |
| FormatEnds.ReturnsIff | utils/libcutils/tzstrftime.c:145-617 | For every format and buffer: a call that returns at all nests formats at most 4 maxsize + 5 deep, so one that nests deeper never returns |
| FormatEnds.SelfReference | utils/libcutils/tzstrftime.c:205-215 | A locale format that refers to itself has no finite text, and returns for no buffer if it copies nothing before |
| FormatEnds.CopyBeforeReference | utils/libcutils/tzstrftime.c:612-616 | With x%c as the format behind %c, the text is infinite and every call returns |
| FormatText.ExpandAppend | utils/libcutils/tzstrftime.c:154-158 | A format that does not stop inside a conversion expands independently of what follows |
| FormatText.CenturyThenYearFormat | utils/libcutils/tzstrftime.c:676-682 | %C followed by %y prints what %Y prints, under every modifier |
| FormatText.YearFormatReadsBack | utils/libcutils/tzstrftime.c:522-525 | What %Y prints reads back as the year |
| FormatText.IsoFormatReadsBack | utils/libcutils/tzstrftime.c:390-482 | What %G and %V print for a day reads back as the ISO year and week of that day |
| FormatText.ClockReadsBack | utils/libcutils/tzstrftime.c:253-350 | What %H, %k, %I, %l, %M and %S print reads back as the clock fields |
| FormatText.TwelveHourClock | utils/libcutils/tzstrftime.c:259-337 | The 12-hour number and the am/pm word together determine the hour |
| FormatText.DateReadsBack | utils/libcutils/tzstrftime.c:219-389 | What %d, %e, %m, %j and %u print reads back as day, month, day of the year and ISO weekday |
| FormatText.FormatDenotesInstant | utils/libcutils/tzstrftime.c:145-617 | The numbers printed for %Y, %m, %d, %H, %M and %S of a second denote that second |
| FormatText.WeeksCountWeekdays | utils/libcutils/tzstrftime.c:373-499 | %U is the number of Sundays of the year so far, and %W the number of Mondays |
| FormatText.StandardFormats | utils/libcutils/tzstrftime.c:216-369 | %F, %T and %D print year-month-day, hour:minute:second and month/day/year, each field as its own conversion prints it |
| FormatText.OffsetFormatReadsBack | utils/libcutils/tzstrftime.c:542-597 | The sign and the hours and minutes that %z prints denote the offset in whole minutes |
| FormatWords.WeekdayShown | utils/libcutils/tzstrftime.c:162-173 | %A and %a print the full and the short name of weekday tm_wday, in the case the flag asks for, and ? outside a week |
| FormatWords.MonthShown | utils/libcutils/tzstrftime.c:174-193 | %B prints the full name of month tm_mon, under - the one that stands alone; %b and %h print the short name, and all of them ? outside a year |
| FormatWords.HalfShown | utils/libcutils/tzstrftime.c:323-331 | %p prints pm from twelve o'clock on and am before, %n a newline and %t a tab; ^ capitalises the letters and # swaps their case |
| FormatWords.SmallHalfShown | utils/libcutils/tzstrftime.c:332-337 | %P prints the same word in small letters, whatever the flag |
| FormatWords.ZoneShown | utils/libcutils/tzstrftime.c:526-541 | %Z prints the standard name for tm_isdst 0, the daylight name for a positive one, and nothing for a negative one |
| FormatWords.NoOffsetShown | utils/libcutils/tzstrftime.c:542-583 | %z prints nothing when tm_isdst is negative or there is no offset |
| FormatWords.ClockShown | utils/libcutils/tzstrftime.c:253-350 | %H, %k, %I, %l, %M and %S print the numeral of their field behind just the padding to two places: blanks under _, zeros under 0, none under -, otherwise zeros, or blanks for %k and %l |
| FormatWords.DateShown | utils/libcutils/tzstrftime.c:219-322 | The same for %d, %e, %m and %V, and for %j with three places |
| FormatWords.WeeksShown | utils/libcutils/tzstrftime.c:373-499 | The same for %U and %W with the number of Sundays and of Mondays of the year so far |
| FormatWords.WeekdayNumberShown | utils/libcutils/tzstrftime.c:380-502 | %w and %u print the bare numeral of the weekday, Sunday being 0 and 7, whatever the flag |
| FormatWords.SecondsShown | utils/libcutils/tzstrftime.c:350-366 | %s prints a numeral that reads back as the time, whatever its sign |
| FormatWords.CenturyShown | utils/libcutils/tzstrftime.c:194-204 | From the year 0 on %C prints the century and %y and %g the year within it, that of the ISO week for %g, padded as the flag says |
| FormatWords.LocaleFormatShown | utils/libcutils/tzstrftime.c:205-215 | %c, %x, %X and %+ print what the locale's format for date and time, date, time, and the long form expands to |
| FormatWords.MoreFormats | utils/libcutils/tzstrftime.c:338-343 | %R, %r and %v print hour:minute, hour:minute:second half, and day-month-year, each field as its own conversion prints it |
| FormatWords.UnknownLetter | utils/libcutils/tzstrftime.c:602-614 | A character that is no conversion prints itself, and so does a last % with nothing behind it; all others are conversions |
| FormatWords.LastFlagCounts | utils/libcutils/tzstrftime.c:225-243 | Of two flags the last one counts, and E and O are passed over |
| BoundedFormat.WroteMore | utils/libcutils/tzstrftime.c:632-674 | Two bounded writes in a row store what one bounded write of both texts would, wherever the limit cuts |
| BoundedFormat.Add | utils/libcutils/tzstrftime.c:632-674 | A styled string is stored as far as the limit allows and nothing at or past the limit changes, in each of the four modes |
| BoundedFormat.FmtConversion | utils/libcutils/tzstrftime.c:155-611 | One conversion stores its text as far as it fits, or leaves one character to copy, and stops after its letter |
| BoundedFormat.Fmt | utils/libcutils/tzstrftime.c:145-617 | Wherever it returns, the bounded writer stores what the call stores by its definition item by item, stopping at the limit where it copies a character, and nothing at or past the limit changes |
| BoundedFormat.StrftimeTz | utils/libcutils/tzstrftime.c:94-127 | For every call that returns: the whole text and its length if the text is finite and fits with a terminator, otherwise 0 and a full buffer, always so for an infinite text; the characters are the front of the text and of what any larger buffer gets; nothing past maxsize is written. Without a format it is that of %c |
| RpcFrames.WordReadsBack | rpc/PROTOCOLBUFFERS.py:175-185 | A 32-bit field reads back as the value stored |
| RpcFrames.UnpackPacks | rpc/PROTOCOLBUFFERS.py:220-228 | Walking fields and buffer bytes in step recovers every argument value that was laid out |
| RpcFrames.StubRoundTrip | rpc/PROTOCOLBUFFERS.py:205-347 | For every signature, what either stub decodes is what the other encoded, requests and responses alike |
| RpcFrames.ArgumentsTravel | rpc/PROTOCOLBUFFERS.py:180-346 | With one value for each argument of a signature: the request brings the server the in arguments, the response brings the client the out arguments, all of them and no others, each at its place among them |
| RpcFrames.HeaderReadsBack | rpc/PROTOCOLBUFFERS.py:206-218 | The five words of a frame read back as magic number, length of the whole frame, direction, message id, and function id or status, in this order |
| RpcFrames.FrameLayout | rpc/PROTOCOLBUFFERS.py:180-228 | Every scalar, and the length of every buffer, lies behind the fields of the values before it, and the bytes of a buffer behind all fields and the buffers before it |
| RpcFrames.BuildFrame | rpc/PROTOCOLBUFFERS.py:207-228 | The stub's stores at computed offsets leave exactly the frame of the header and values, of exactly the allocated size |
| RpcFrames.WriteFields | rpc/PROTOCOLBUFFERS.py:220-223 | The struct fields end up one after the other behind an unchanged header |
| RpcFrames.WriteBuffers | rpc/PROTOCOLBUFFERS.py:224-228 | All buffers end up one after the other, filling the frame to its last byte |
| RpcFrames.SizeOfFrame | rpc/PROTOCOLBUFFERS.py:207-212 | The size expression, of type size_t, is the length of the frame modulo 2^32, so it is right if and only if the frame is shorter than 2^32 bytes |
| RpcFrames.UnpackIffLongEnough | rpc/PROTOCOLBUFFERS.py:259-263 | The announced bytes are all there if and only if their true sum is at most what follows the struct |
| RpcFrames.CheckIsRightIff | rpc/PROTOCOLBUFFERS.py:259-263 | For every frame the size_t comparison agrees with what the frame holds if and only if its sum does not wrap, or wraps to more than the frame; it never turns a whole frame down |
| RpcFrames.WrappedSumAccepted | rpc/PROTOCOLBUFFERS.py:259-263 | A frame of 24 bytes that announces a buffer of 2^32 - 1 bytes passes the check although it holds none of them |
| RpcFrames.StubFramesAccepted | rpc/PROTOCOLBUFFERS.py:205-228 | A frame made by a stub announces exactly what it holds, never wraps the sum, and is accepted |
| RpcFrames.AnnouncedSize | rpc/PROTOCOLBUFFERS.py:259-263 | The size that the stub compares is the true sum modulo 2^32 |
| RpcFrames.UnpackFrame | rpc/PROTOCOLBUFFERS.py:258-275 | The receiving stub hands on the decoded values of every frame that holds them, turns down what the check does not accept, and copies past the end exactly of the frames that the check accepts wrongly |
| RpcFrames.FramesArriveInOrder | rpc/PROTOCOLBUFFERS.py:489-509 | A stream of frames below the size limit is received as those frames, unaltered and in order |
| RpcFrames.PartialStreamPrefix | rpc/PROTOCOLBUFFERS.py:489-509 | Cutting the stream anywhere only cuts the list of frames received |
| RpcFrames.ReceivedIffBelowLimit | rpc/PROTOCOLBUFFERS.py:501-508 | A frame gets through if and only if it is shorter than 50 MiB; a longer one ends the loop |
| RpcTransport.Network.Send | rpc/PROTOCOLBUFFERS.py:75-82 | send accepts a non-empty prefix of the bytes, or fails and accepts none, as its answer is laid down |
| RpcTransport.SendQueue.XSend | rpc/PROTOCOLBUFFERS.py:99-106 | A frame joins the end of the queue |
| RpcTransport.AllOutIff | rpc/PROTOCOLBUFFERS.py:74-83 | However the answers of send split a frame, all of it goes out if and only if none of them is a failure, and after a failure there is no further call |
| RpcTransport.AllWholeIff | rpc/PROTOCOLBUFFERS.py:66-83 | All frames of a queue go out whole if and only if no call of send fails |
| RpcTransport.SendQueue.SendWhole | rpc/PROTOCOLBUFFERS.py:71-83 | The bytes that go out are the prefix that the answers of send determine, once and in order: all of the frame if and only if no call fails; other descriptors are untouched |
| RpcTransport.SendQueue.Drain | rpc/PROTOCOLBUFFERS.py:58-91 | With other threads queueing frames during every send, the loop ends when it first finds the queue empty; all frames go out in queue order, each up to the cut that the answers of send determine; a descriptor has failed exactly when one of its frames was cut, and none has if and only if no call of send failed |
| RpcTransport.SendQueue.DrainNew | rpc/PROTOCOLBUFFERS.py:58-91 | On new connections the frames on a wire are exactly those queued for its descriptor if and only if no send failed on it, and on all wires if and only if no call of send failed |
| RpcTransport.ArriveIffNoFailure | rpc/PROTOCOLBUFFERS.py:66-83 | Whatever frames were cut, the receiver parses the queued frames out of the bytes if and only if none for that descriptor was cut |
| RpcTransport.CutFrame | rpc/PROTOCOLBUFFERS.py:77-83 | What a receiver makes of a frame cut at byte k and the next one: nothing of the first for k = 0, bad magic for k < 4, a huge message for k < 8, and a frame completed from the next one otherwise |
| RpcTransport.OneFailure | rpc/PROTOCOLBUFFERS.py:71-86 | If only the first call of send fails, after k bytes were accepted, the first frame is cut at k and all others go out whole |
| RpcReceive.Socket.Recv | rpc/PROTOCOLBUFFERS.py:492-508 | recv gets all bytes asked for, or fewer at the end of the stream or where it is laid down to come up short |
| RpcReceive.ReceiveAddsUp | rpc/PROTOCOLBUFFERS.py:489-509 | No byte is received twice: frames, dropped header bytes and what is left add up to no more than the stream, and dropped and kept bytes to all of it |
| RpcReceive.ReceiveParsesKept | rpc/PROTOCOLBUFFERS.py:489-509 | However recv comes up short, the frames are those at the front of the stream without the dropped bytes, and all of them with the right return code if it is read to its end |
| RpcReceive.WholeFramesIff | rpc/PROTOCOLBUFFERS.py:489-509 | For every stream of whole frames and every way recv comes up short: exactly those frames are received if and only if no part of a header was dropped and nothing was left unread |
| RpcReceive.WithoutEagain | rpc/PROTOCOLBUFFERS.py:492-495 | Without EAGAIN nothing is dropped, and where no recv comes up short the loop is the one-shot parse |
| RpcReceive.DroppedHeader | rpc/PROTOCOLBUFFERS.py:492-493 | Four bytes of a header and then EAGAIN: neither that frame arrives, whichever it is, nor anything behind it |
| RpcReceive.ShortHeader | rpc/PROTOCOLBUFFERS.py:492-495 | A header that comes up short is read again from where it stopped under EAGAIN, and ends the loop otherwise |
| RpcReceive.ShortBody | rpc/PROTOCOLBUFFERS.py:508 | A body that comes up short ends the loop even under EAGAIN, its header is lost, and what is behind is left |
| RpcReceive.ReceiveOne | rpc/PROTOCOLBUFFERS.py:491-508 | One round takes off the stream exactly the header and body that recv delivers, and ends, reads again or hands on a frame as they say |
| RpcReceive.ReceiveLoop | rpc/PROTOCOLBUFFERS.py:489-509 | Frames, return code and unread rest are those that stream and short reads determine; if nothing was dropped they are the front of the one-shot parse, and all of it if the stream was read to its end |
| RpcEndToEnd.QueueForFd | rpc/PROTOCOLBUFFERS.py:66-72 | The bytes for one descriptor are the frames posted to it, with the magic number in place of the descriptor |
| RpcEndToEnd.PostsArrive | rpc/PROTOCOLBUFFERS.py:58-106 | The bytes queued for a descriptor parse and decode to the values carried by the posts to it, in order |
| RpcEndToEnd.ArrivedIff | rpc/PROTOCOLBUFFERS.py:58-509 | For all posts, each a call or an answer with a value for every argument of its signature, and for all cuts and short reads: what the stubs hand on is, post by post, the in arguments of each call and the out arguments of each answer at their places, if and only if no frame for the descriptor was cut, no part of a header dropped and nothing left unread |
| RpcEndToEnd.NothingGoesWrong | rpc/PROTOCOLBUFFERS.py:58-509 | Where every send and recv does what it was asked for, none of the three happens |
| RpcEndToEnd.EndToEnd | rpc/PROTOCOLBUFFERS.py:58-509 | Stubs, queue, sending thread, socket, receive loop and stubs together: of what was posted before the queue was found empty every call brings its in arguments and every answer its out arguments, in order, if and only if no send failed on the descriptor, nothing of a header was dropped and nothing left unread; always, if no call fails or comes up short |
| RpcTransport.TruncatedFrameCorrupts | rpc/PROTOCOLBUFFERS.py:77-83 | A witness: of two frames of 24 bytes, the first cut at byte 20, neither arrives |
| RpcProtocol.InvStep | rpc/PROTOCOLBUFFERS.py:231-257 | Every step of every thread keeps the invariant of callers, table and receive thread, while ids in the table are not reused |
| RpcProtocol.RunKeepsInv | rpc/PROTOCOLBUFFERS.py:231-257 | So does every run |
| RpcProtocol.EveryCallerAccountedFor | rpc/PROTOCOLBUFFERS.py:509-525 | In every interleaving a blocked caller without message is registered under its own id or in the receive thread's hands, gets at most one message, its own, and returns for that message, or 2 |
| RpcProtocol.ReturnsWhatWasSent | rpc/PROTOCOLBUFFERS.py:249-263 | In every run a call that has returned a response returned the status that the peer sent, in that run, in a response to its id, if that is not zero, otherwise 0 if that response was long enough for the out arguments and 3 if not; every other call that has returned, returned 2 |
| RpcProtocol.NoLostSignal | rpc/PROTOCOLBUFFERS.py:249-252 | A caller asleep although its message is there is about to be signalled |
| RpcProtocol.FewCallsNeverReuse | rpc/PROTOCOLBUFFERS.py:217 | With fewer than 2^32 calls every schedule is a run without reused ids, although the counter wraps |
| RpcProtocol.RegisterIffFreshId | rpc/PROTOCOLBUFFERS.py:245 | Registering keeps the invariant if and only if the id is not in the table; otherwise the caller it belonged to is stranded |
| RpcProtocol.StrandedForever | rpc/PROTOCOLBUFFERS.py:509-523 | A stranded caller stays stranded whatever happens, the death of the connection included |
| RpcProtocol.IdReuseStrands | rpc/PROTOCOLBUFFERS.py:217-245 | A schedule from the start that strands a caller: it waits while 2^32 - 1 other calls are served, and the next call takes its id |
| RpcProtocol.SweepNeverStuck | rpc/PROTOCOLBUFFERS.py:451-455 | While the receive thread closes down, its next step, or that of the caller it waits for, is possible |
| RpcProtocol.SweepProgress | rpc/PROTOCOLBUFFERS.py:451-455 | Each of those steps lowers a measure of phase, entries left and lock to wait for, and no step of any thread raises it |
| RpcProtocol.SweepEnds | rpc/PROTOCOLBUFFERS.py:451-455 | From wherever the receive thread closes down there is a run to the end of the sweep |
| RpcProtocol.DeathReleasesEveryone | rpc/PROTOCOLBUFFERS.py:359-370 | After the sweep nobody waits, later callers return 2, every step brings the callers nearer to returning, and the system rests only when all have returned |
| RpcProtocol.LiveProgress | rpc/PROTOCOLBUFFERS.py:217-257 | While the connection lives, each useful step of any thread lowers one measure of all that the calls have ahead of them, no other step raises it, and returned calls stay as they are |
| RpcProtocol.LiveNeverStuck | rpc/PROTOCOLBUFFERS.py:509-525 | For every peer, whatever it answers to each id, a useful step with its answers is possible until all calls have returned |
| RpcProtocol.EveryCallReturns | rpc/PROTOCOLBUFFERS.py:217-257 | From every state of a living connection with fewer than 2^32 calls, and for every peer, there is a run with its answers in which every call returns: the status it answers to the call's id if not zero, otherwise 0 or 3 by the length of that answer. A call that holds a message, or has one on its way, returns for that message, and a returned call stays as it is |
| HashMap.IndexIsRemainder | utils/libcutils/hashmap.c:97-99 | Masking with bucketCount - 1 is the remainder, for every power of two |
| HashMap.SpreadSeparates | utils/libcutils/hashmap.c:80-91 | The secondary hash maps different 32-bit hash codes to different ones |
| HashMap.EqualKeysIsEquals | utils/libcutils/hashmap.c:178-187 | Comparing addresses and cached hashes first does not change what `equals` says |
| HashMap.PutThenLookup | utils/libcutils/hashmap.c:189-219 | After a put every equivalent key finds the value and every other key what it found before |
| HashMap.RemoveThenLookup | utils/libcutils/hashmap.c:284-304 | After a removal no equivalent key finds anything and every other key what it found before |
| HashMap.Hashmap.constructor | utils/libcutils/hashmap.c:43-75 | An empty valid map whose bucket count is the smallest power of two above 4/3 of the capacity |
| HashMap.Hashmap.Locate | utils/libcutils/hashmap.c:190-196 | Walking one chain finds the entry of an equivalent key if the map has one, and otherwise the end of that chain |
| HashMap.Hashmap.Put | utils/libcutils/hashmap.c:189-219 | Put returns the old value and changes the map at that key only; on a failed allocation the map stays as it was |
| HashMap.Hashmap.Get | utils/libcutils/hashmap.c:221-234 | Get returns the value the finite map has for the key, or NULL |
| HashMap.Hashmap.ContainsKey | utils/libcutils/hashmap.c:236-249 | True exactly when the finite map has an equivalent key |
| HashMap.Hashmap.Memoize | utils/libcutils/hashmap.c:251-282 | The stored value if there is one, otherwise the initial value, which is then stored |
| HashMap.Hashmap.Remove | utils/libcutils/hashmap.c:284-304 | Remove returns the value and takes that key only out of the map; the table keeps its size |
| HashMap.Hashmap.LinkLast | utils/libcutils/hashmap.c:197-204 | Writing through the pointer the walk stopped at appends the entry to its chain and leaves every other chain alone |
| HashMap.Hashmap.Unlink | utils/libcutils/hashmap.c:292-297 | Writing through that pointer takes one entry out of its chain and leaves every other chain alone |
| HashMap.Hashmap.ExpandIfNecessary | utils/libcutils/hashmap.c:101-130 | Above 3/4 load the same entries, unchanged, move to a table twice the size; a failed allocation changes nothing |
| HashMap.Hashmap.MoveAll | utils/libcutils/hashmap.c:112-123 | Relinking in place leaves every entry, once, in the chain of its hash in the new table |
| HashMap.Run | utils/libcutils/hashmap.c:189-304 | Every run of calls answers as the finite map does, keeps the load at 3/4 while allocation succeeds, and keeps its bucket array while the load could not exceed 3/4 even if every insertion added an entry |
| HashMap.RunNew | utils/libcutils/hashmap.c:53-59 | A new map answers every run as the empty finite map does, and a run with at most initialCapacity insertions leaves the table at the smallest power of two it was created with |
| Utf.SeqLengthTable | utils/libcutils/strdup8to16.c:29-30 | The shifted constant gives 1, 2, 3 or 4 from the leading bits, as a table over all bytes |
| Utf.PairRecombines | utils/libcutils/strdup8to16.c:163-168 | The two units of a pair are a high and a low surrogate and recombine to the code point, as in section 2.1 of RFC 2781 |
| Utf.SupplementaryDecodes | utils/libcutils/strdup8to16.c:112-169 | The four standard bytes of any code point from 0x10000 on, wherever they stand, decode to it and to the position behind them, and are stored as its high surrogate and then its low one |
| Utf.StandardDecodes | utils/libcutils/strdup8to16.c:112-177 | Standard UTF-8 (section 3 of RFC 3629) of any sequence of code points but zero is copied as their UTF-16 |
| Utf.MalformedDecodes | utils/libcutils/strdup8to16.c:112-143 | A stray extension byte decodes to the replacement character alone, and so does a sequence with too few extension bytes, up to the byte that is none, which is read again |
| Utf.TooLarge | utils/libcutils/strdup8to16.c:162-171 | A code point past the limit is stored as the replacement character |
| Utf.UnitDecodes | utils/libcutils/strdup8to16.c:112-143 | The bytes of any unit decode to that unit wherever they stand |
| Utf.RoundTrip | utils/libcutils/strdup8to16.c:151-177 | Every sequence of 16-bit units, zeros and lone surrogates included, survives encoding and decoding |
| Utf.NoZeroByte | utils/libcutils/strdup16to8.c:94-106 | The encoding has no zero byte before its terminator |
| Utf.EncodedSize | utils/libcutils/strdup16to8.c:115-132 | A unit takes one byte up to 0x7f, two up to 0x7ff and for zero, and three above |
| Utf.TwoPasses | utils/libcutils/strdup8to16.c:68-99 | On any bytes the length pass counts the units the copy stores, plus one for every four-byte lead that does not become a pair |
| Utf.CopyFits | utils/libcutils/strdup8to16.c:50-59 | The allocated buffer is never too small, and exact if and only if every four-byte lead becomes a pair |
| Utf.EncodedLength | utils/libcutils/strdup8to16.c:68-99 | On encoded text strlen8to16 gives the original length |
| Utf.StrnLen16To8 | utils/libcutils/strdup16to8.c:29-92 | Both paths give the encoded length held at SIZE_MAX - 1, for every length up to SIZE_MAX |
| Utf.SizeWraps | utils/libcutils/strdup16to8.c:72-85 | A size_t sum that wraps comes out smaller, so the comparison catches every overflow |
| Utf.StrnCpy16To8 | utils/libcutils/strdup16to8.c:107-137 | The copy stores the encoding and one terminator and nothing else |
| Utf.StrLen8To16 | utils/libcutils/strdup8to16.c:68-99 | The counting loop with its expected-bytes counter computes the length used above |
| Utf.GetUtf32 | utils/libcutils/strdup8to16.c:112-143 | One code point and the start of the next, with the replacement character on malformed or truncated input |
| Utf.StrCpy8To16 | utils/libcutils/strdup8to16.c:151-177 | On any bytes the copy ends, stores exactly the decoded units, in their order, and stays inside a buffer of strlen8to16 units |
| RecordStream.ParseAfter | utils/libcutils/record_stream.c:73-112 | Whole frames in front of any bytes parse to their records and do not disturb the rest |
| RecordStream.LengthThenBytes | utils/libcutils/record_stream.c:73-112 | The length of a record in four bytes, the most significant first, followed by its bytes, is that one record, whatever follows |
| RecordStream.RecordStream.constructor | utils/libcutils/record_stream.c:45-62 | An empty buffer of maxRecordLen + 4 bytes |
| RecordStream.EndTestIff | utils/libcutils/record_stream.c:73-93 | Comparing addresses tells whether a record is whole if and only if the end address does not wrap, or wraps past the bytes read |
| RecordStream.AstrayIsTooLong | utils/libcutils/record_stream.c:84-90 | An end can wrap below the bytes read only for a length above maxRecordLen, and never with 4 GiB of addresses behind the buffer |
| RecordStream.RecordStream.GetNextRecord | utils/libcutils/record_stream.c:73-112 | A record is handed out exactly when a whole one is in the buffer, and the wrapped end address is mistaken for one exactly when it falls below the bytes read |
| RecordStream.RecordStream.Compact | utils/libcutils/record_stream.c:153-164 | The memmove loses and repeats no pending byte |
| RecordStream.RecordStream.Refill | utils/libcutils/record_stream.c:153-174 | The space passed to read is never empty, and the bytes that read returns, as many as it returns, follow the pending ones |
| RecordStream.RecordStream.GetNext | utils/libcutils/record_stream.c:127-186 | A whole record in the buffer is handed out without reading; otherwise there is one read, whose answer decides between failure, end of stream, a record and EAGAIN. The records delivered are a prefix of the one-shot parse, all of it at end of stream; the full-buffer branch is taken exactly for a record that is too long and whose end does not wrap, so never when lengths are in bounds |
| RecordStream.FullBuffer | utils/libcutils/record_stream.c:142-151 | A full buffer without a whole record announces a length above maxRecordLen |
| Selector.KeptAndRemoved | utils/libcutils/selector.c:155-194 | Every descriptor is kept, or removed and notified exactly once |
| Selector.DescriptorSets.PrepareForSelect | utils/libcutils/selector.c:142-195 | Stale descriptors leave and the others keep their order; the sets hold exactly the descriptors with the callback, and maxFd is their largest |
| Selector.InvStep | utils/libcutils/selector.c:58-85 | Every step of the loop and of any waker keeps the handshake invariant, if no write is interrupted |
| Selector.RunKeepsInv | utils/libcutils/selector.c:229-262 | So does every interleaving |
| Selector.NoLostWakeUp | utils/libcutils/selector.c:71-85 | A loop blocked in select with an empty pipe has seen the change of every wake-up call that has returned |
| Selector.BlockedLoopGetsByte | utils/libcutils/selector.c:71-85 | A blocked loop with an unseen change is about to be woken: a byte is there, or the waker is still going to write one |
| Selector.BytesComeFromInside | utils/libcutils/selector.c:71-85 | In every run there are no more bytes, in the pipe and on their way to it, than calls that found the loop inside select: the others write nothing |
| Selector.RoundsToRest | utils/libcutils/selector.c:44-55 | With n bytes in the pipe and no call under way a blocked loop left to itself goes round exactly once for every 64 bytes begun, and then blocks |
| Selector.LoopReachesPrepare | utils/libcutils/selector.c:236-262 | Outside an empty select the loop can always go on, its own steps bring it to the next prepareForSelect, and that sees every change made so far |
| Selector.InterruptedWriteKeepsInvIff | utils/libcutils/selector.c:78-84 | An interrupted write keeps the handshake invariant if and only if the loop is not committed to a select, has seen the change, or the pipe holds a byte |
| Selector.InterruptedWriteLosesIff | utils/libcutils/selector.c:78-84 | Left to itself after an interrupted write, the loop blocks for good with the change unseen if and only if it is committed, has not seen it, the pipe is empty and no other waker will write; otherwise every continuation that comes to rest has seen it |
| Selector.QuietStep | utils/libcutils/selector.c:229-262 | Without new changes, events or signals every step uses up a call, bytes of the pipe, or a stage of the loop, and never loses a change that was going to be seen |
| Selector.Settle | utils/libcutils/selector.c:229-262 | Such a system comes to rest from every state |
| Selector.InterruptedWriteLoses | utils/libcutils/selector.c:78-84 | A schedule in which the change of a returned call stays unseen by a blocked loop |
| Config.Lex | utils/libcutils/config_utils.c:122-227 | Every token but the end uses up part of the remaining bytes plus the pushed-back character |
| Config.Find | utils/libcutils/config_utils.c:38-48 | The last child of the name, if there is one |
| Config.ParseBlock | utils/libcutils/config_utils.c:247-261 | The mutual recursion ends on every input, and a successful parse uses up input |
| Config.LoadPrinted | utils/libcutils/config_utils.c:290-310 | Loading a printed forest into any tree inserts its nodes in order, whatever their names |
| Config.LeafLine | utils/libcutils/config_utils.c:122-310 | A line of a name, blanks of any kind, a value, and blanks before the end of the line loads as that leaf; blanks in front of it, line ends included, do not matter |
| Config.LastValue | utils/libcutils/config_utils.c:177-195 | A value that the end of the text cuts off keeps the blanks behind it |
| Config.BadLine | utils/libcutils/config_utils.c:264-310 | A name followed by a closing brace ends loading: its node is there, and nothing that follows |
| Config.CommentLine | utils/libcutils/config_utils.c:147-160 | A comment up to the end of its line is not loaded |
| Config.InsertOne | utils/libcutils/config_utils.c:264-272 | A node is appended whole exactly when the last sibling of its name has a value, at every level below; otherwise nodes are merged and the total shrinks |
| Config.ConfigRoundTrip | utils/libcutils/config_utils.c:245-310 | Printing and loading gives back the same forest in order if and only if no node follows a last sibling of its name that is a block |
| Config.UniqueNamesSeparate | utils/libcutils/config_utils.c:267-269 | Unique sibling names meet that condition |
| Config.LoadDotted | utils/libcutils/config_utils.c:264-279 | Loading a dotted line into any tree: the first name is looked up as usual, and each dot makes a new last child without a lookup |
| Config.DottedLikeBlocks | utils/libcutils/config_utils.c:264-279 | For every tree a dotted line loads as the nested blocks of its names do if and only if nothing follows a dot or the second block would make a new child too |
| ConfigLexer.LexState.Lex | utils/libcutils/config_utils.c:122-227 | Cutting terminators into the buffer yields the tokens of the pure lexer, their texts as C strings, and changes nothing before the read position |
| ConfigLexer.LexState.SkipBlank | utils/libcutils/config_utils.c:135-162 | Blanks and comments are passed over to the first character of a token or the end |
| ConfigLexer.LexState.CutName | utils/libcutils/config_utils.c:200-220 | A name is cut at whitespace or punctuation, and punctuation is pushed back |
| ConfigLexer.LexState.CutValue | utils/libcutils/config_utils.c:176-199 | A value is cut at the end of its line and trimmed, and left uncut at the end of the text |
| ConfigLexer.EarlierStringStays | utils/libcutils/config_utils.c:222-226 | Reading on never changes the string of an earlier token |
| ConfigLexer.TreeStays | utils/libcutils/config_utils.c:264-288 | Reading on leaves the tree that the pointers into the buffer denote as it is |
| ConfigLexer.RunBlock | utils/libcutils/config_utils.c:247-261 | The parser over the destructive lexer stores pointers into the buffer, and what they denote at the end of the block is the block of the pure parser |
| ConfigLexer.RunExpr | utils/libcutils/config_utils.c:264-288 | The same for one expression, its success and the position afterwards |
| ConfigLexer.RunLoad | utils/libcutils/config_utils.c:290-310 | When config_load has cut up the whole buffer, the names and values its tree points to are those of the pure loader |

## Left out

- Leap-second tables: `timesub` is modelled with `leapcnt == 0`.
- Overflow of time_t inside `timesub`, `localsub` and `transtime`: those use mathematical integers, so the `icycles`
  comparison of `localsub`, which never fires for an integral time_t, is not modelled. `newy - 1` at INT_MIN, which C
  leaves undefined, is a plain subtraction, and the year difference in `tmcomp` wraps.
- Mktime.Time2Sub: what a failing last conversion leaves in the request is any value.
- Mktime.Bisect: the initial bounds are TIME_T_MIN and TIME_T_MAX directly; the loop that computes them by doubling, and
  the branches for unsigned and floating time_t, are not modelled.
- MktimeZones.RoundTripSmooth: takes daylight flags that are not negative, and tables of 32-bit times, which never fold;
  with a step back longer than a period beside it, what holds is `MktimeZones.Time2SubLocal`.
- Zones.LocalSub: takes the state as `tzload` leaves it, with sorted transition times; loading, the four-slot cache, the
  abbreviations and the text parser of TZ strings are not part of this model.
- The retry over type pairs in `time1`, `gmtsub`, and the process-wide `tzname`.
- BoundedFormat.StrftimeTz: letters are those of the C locale; `%s` takes the value of `mktime` as a parameter; TM_ZONE,
  USG_COMPAT and ALTZONE are taken as undefined, and TM_GMTOFF as an option; the year-2000 warning flag is dropped, and
  fields near the ends of the int range are added without wrap-around. The pieces that one conversion adds come from
  a table, added by a loop where the source spells out the calls.
- RpcProtocol.InvStep: one connection; the life of the caller's stack record after it returns, the run-loop queue and
  its locks, asynchronous calls (which only send) and out-of-memory are not modelled.
- RpcFrames.UnpackFrame: NULL output pointers and the extra zero byte after a copied buffer are not modelled, nor is
  what a copy past the end of a frame reads. Lengths are 32-bit words, the least significant byte first.
- RpcFrames.BuildFrame: takes values whose frame is shorter than 2^32 bytes; for longer ones the allocated size wraps,
  as `RpcFrames.SizeOfFrame` states, and the stores leave the allocation.
- RpcReceive.ReceiveLoop: the answers of recv are laid down beforehand, finitely many of them short; a stale EAGAIN that
  never clears, with which the source reads on for ever at the end of the stream, is not modelled.
- RpcEndToEnd.EndToEnd: the receiving stubs know the signature of each frame; the dispatch on function and message ids
  is not modelled.
- The text parser of the generator (signatures, structs, file output).
- HashMap.Hashmap.Put: `size_t` overflow of `bucketCount * 3`, the mutex, `hashmapForEach`, `hashmapFree` and
  `hashmapCountCollisions` are left out; sizes are unbounded, and the hash is masked as its
  unsigned 32-bit value, which differs from the sign-extended one only above 2^32 buckets.
- HashMap.Hashmap.Memoize: a callback that re-enters the map is not modelled.
- Utf.StrnCpy16To8: the test for zero in its last branch, which cannot be reached with zero, is dropped;
  `strcpylen8to16` and the malloc wrappers are not modelled.
- RecordStream.RecordStream.GetNext: records are returned as values, so that a returned pointer dies with the next call
  is not captured. The `assert (0)` on a full buffer is the outcome TooLong; a wrapped end taken for a record is the
  outcome Astray, and what the code does from there on is not modelled. The buffer does not lie at the very top of
  memory.
- Selector.DescriptorSets.PrepareForSelect: the bodies of callbacks are not modelled, nor is the dispatch of
  `fireEvents`; in the step system prepareForSelect is two steps, its beginning and its end, and a pipe never fills up.
- Config.ParseBlock: the tree is a value, so the linking of siblings through `last_child` and `next` is not captured;
  `config_set`, `config_bool`, `config_str` and `config_load_file` add only easy members.
- ELF loading, JNI, graphics and audio wrappers, sockets, properties and process helpers: foreign calls with little
  logic of their own.
