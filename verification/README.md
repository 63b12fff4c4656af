# NTP client time-keeping, modelled in Dafny

This project models the time-keeping logic of the Arduino `NTP` class
(`NTP.cpp`) as pure functions over immutable state, and proves properties of
that model. The model covers three parts.

- **The NTP payload.**
  - `init` builds a fixed 48-byte client request.
  - `ntpUpdate` reads the transmit-timestamp seconds from a 48-byte reply. They are big-endian at byte offset 40, per section 7.3 of RFC 5905.
  - A zero timestamp is rejected.
  - Accepted seconds move from the NTP era (1900) to Unix time by subtracting 2208988800 in unsigned 32-bit arithmetic.
- **The sync anchor.**
  - The anchor is `ntpTime`, `utcTime`, `lastUpdate` and `interval`.
  - `update` syncs only when a full interval has passed on the wrapping millisecond tick, or when `lastUpdate` is 0 (its start-up value, and also its value after a reply read at tick 0).
  - `currentTime` extrapolates UTC "now" from the anchor and the elapsed whole seconds.
- **The DST rule engine.**
  - `ruleDST`/`ruleSTD` validate and store two transition rules. `timeZone` and `isDST(bool)` set the base offset and the observance flag.
  - `calcDateDST` finds the n-th or last weekday of a month at a given hour.
  - `beginDST` turns a year's two rule instants into a UTC window. Each instant is converted with the offset in force just before it.
  - `summerTime` classifies a UTC instant against that window (open at the start, closed at the end).
  - `currentTime` applies the offset and recomputes the window when the local year moves past the cached one.
  - `init` derives the two offsets from the rules when DST is armed.

Each operation is a transition `Clock -> Clock`. The inputs the C++ code reads from the outside world become parameters:
- the `millis()` tick;
- the reply packet, or none on a timeout.

`mktime`/`gmtime` are replaced by a pure proleptic-Gregorian UTC calendar (module `Calendar`). It normalises month index 12 into January of the next year, which `calcDateDST` relies on for a December "last" rule.

Modules:
- `Word`: unsigned 32-bit wrap and big-endian bytes.
- `Calendar`: `mktime`/`gmtime`.
- `Wire`: the request and the reply field.
- `Rules`: rules, name buffers and `calcDateDST`.
- `NtpClock`: the state and its operations.
- `NtpClockProps`: properties across operations and calls.
- `EuScenario`: a worked central-European example for 2024.

When a query's local year is past `yearDST`, `currentTime` classifies it with the previous window and only then calls `beginDST` (NTP.cpp:207-217). `current` and `local` keep that classification, and the new window first applies to the next query. `NtpClockProps.NewYearUsesStaleWindowOnce` states this. The query `init` makes is judged the same way, against the window held before `init` (`EuScenario.StartUpInJune`).

## Model

| member | source | states |
|---|---|---|
| Word.Sub32 | NTP.cpp:72 | `millis() - lastUpdate` on `uint32_t`: the forward distance around 2^32, equal to the plain difference when no wrap occurred |
| Word.Add32 | NTP.cpp:205 | `uint32_t` addition, undone by `Sub32` in either operand, wrapping exactly when the sum reaches 2^32 |
| Word.BigEndian | NTP.cpp:103 | the four bytes are recovered from the big-endian value by division and remainder |
| Word.ToBigEndian | NTP.cpp:103 | a 32-bit value splits into four bytes that read back big-endian to the same value |
| Word.ToBigEndianOfBigEndian | NTP.cpp:103 | reading four bytes and splitting the value again gives the same bytes (the other half of the bijection) |
| Word.BigEndianZero | NTP.cpp:103-104 | the decoded timestamp is zero exactly when all four bytes are zero |
| Wire.Request | NTP.cpp:47-56 | the request decodes to LI 3, version 4, mode 3; bytes 1-3 are 0, 6, 0xEC; bytes 12-15 are 49, 0x4E, 49, 52; every other byte is 0 |
| Wire.RequestReferenceTag | NTP.cpp:53-56 | the reference identifier bytes spell "1N14" |
| Wire.TransmitSeconds | NTP.cpp:103-104 | the seconds are zero exactly when bytes 40..43 are all zero, and they are those bytes read big-endian |
| Wire.TransmitSecondsRoundTrip | NTP.cpp:103 | writing seconds into bytes 40..43 and decoding gives them back |
| Wire.ToUnix | NTP.cpp:106 | Unix seconds plus 2208988800 wrap back to the NTP seconds, and equal the plain difference from 1970 onwards |
| Wire.SeventyYearsIsEpochGap | NTP.cpp:106 | the epoch constant is the calendar distance from 1900-01-01 to 1970-01-01 |
| Calendar.NextMonthFirst | NTP.cpp:291-306 | the first of month index `m + 1`, normalised into the next year after December, lies one month length after the first of `m` |
| Calendar.DaysBeforeYearMonotone | NTP.cpp:209 | a later year never starts on an earlier day |
| Calendar.DateOfDayNumber | NTP.cpp:209 | the date found for a day number is the valid date that has that day number |
| Calendar.EarlierMonthEarlierDay | NTP.cpp:209 | within one year, an earlier month means an earlier day and an earlier instant |
| Calendar.BreakDown | NTP.cpp:209 | every instant breaks down into a valid civil time whose seconds are that instant |
| Calendar.CivilTimeUnique | NTP.cpp:209 | exactly one valid civil time names each instant, so `gmtime` is well defined |
| Calendar.GmtimeNames | NTP.cpp:209 | `gmtime(t)`, modelled by `Calendar.Gmtime`, is a valid civil time with seconds `t` |
| Calendar.BreakDownOfSeconds | NTP.cpp:209 | breaking down the seconds of a valid civil time gives that civil time back |
| Calendar.GmtimeOfSeconds | NTP.cpp:209 | `gmtime` inverts the civil-to-seconds map on every valid civil time |
| Calendar.MkTime | NTP.cpp:299-306 | for a day 1..28 and an in-range time of day, `gmtime` of the result has the month normalised into the year and the given day and time |
| Calendar.WeekdayOf | NTP.cpp:306-308 | the `tm_wday` written back by `mktime` is the weekday `gmtime` gives for the same instant |
| Rules.CString | NTP.cpp:175-176 | the zone name read from a buffer is its longest NUL-free prefix, followed by NUL when shorter than the buffer |
| Rules.CStringOfPadded | NTP.cpp:124-125 | a NUL-free name followed by NUL padding reads back as the name |
| Rules.StoreName | NTP.cpp:124-125 | the stored buffer has the full capacity, ends in NUL, and holds the name cut to capacity - 1 with NUL padding |
| Rules.StoreNameIdempotent | NTP.cpp:124-125 | storing the name read back from a stored buffer gives the same buffer |
| Rules.StepToWeekday | NTP.cpp:308 | from day `n`, moving forward `(w - weekday(n) + 7) % 7` days plus any whole number of weeks lands on weekday `w` |
| Rules.CalcDateDst | NTP.cpp:288-311 | the instant is hour:00:00 on the rule's weekday in the rule's month of the year, in week `week` or in the last week for 0 |
| Rules.CalcDateDstMeaning | NTP.cpp:299-309 | the start of the month (or the next month for "last"), stepped to the weekday and moved by whole weeks, is the instant the rule names |
| Rules.TransitionUnique | NTP.cpp:288-311 | a rule names at most one instant in a year |
| Rules.CalcDateDstIsUnique | NTP.cpp:288-311 | an instant has the properties the rule names if and only if it is `calcDateDST`'s result |
| Rules.LastOccurrenceIsLast | NTP.cpp:291-309 | for a "last" rule no later day of the month falls on the rule's weekday |
| NtpClock.Receive | NTP.cpp:91-108 | a reply always stamps `lastUpdate`; nonzero seconds become `ntpTime`, and `utcTime` is them on the Unix epoch; zero seconds keep both |
| NtpClock.NtpUpdate | NTP.cpp:84-110 | a timeout returns false and changes nothing; success holds exactly when a reply arrived with nonzero seconds; a reply changes only the anchor, as `Receive` does |
| NtpClock.Update | NTP.cpp:71-76 | with the test of line 72 as `NtpClock.SyncDue`, `ntpUpdate` runs exactly when the wrapped elapsed ticks reach `interval` or `lastUpdate` is 0; otherwise false and no change |
| NtpClock.UpdateInterval | NTP.cpp:113-115 | only `interval` changes |
| NtpClock.CurrentUtc | NTP.cpp:205 | the wrapped distance from `utcTime` to the result is the wrapped elapsed ticks divided by 1000 |
| NtpClock.MakeRule | NTP.cpp:117-131 | a rule exists exactly when week 0..4, wday 0..6, month 0..11 and hour 0..23; it has these fields, the offset, and the name cut to capacity - 1 |
| NtpClock.RuleDst | NTP.cpp:117-132 | out of range: no change; otherwise exactly `dstStart` and its configured flag change, to the validated rule and true |
| NtpClock.RuleStd | NTP.cpp:145-160 | out of range: no change; otherwise exactly `dstEnd` and its configured flag change, to the validated rule and true |
| NtpClock.TimeZone | NTP.cpp:181-189 | for non-negative minutes the magnitude of the offset is abs(hours)·3600 + minutes·60 and it is negative exactly for negative hours; only the offset changes |
| NtpClock.SetDstZone | NTP.cpp:191-193 | only the observance flag changes |
| NtpClock.ComputeWindow | NTP.cpp:281-285 | the window holds the two rule instants of the year, each turned into UTC with the other rule's offset, and the year |
| NtpClock.WindowUnique | NTP.cpp:279-286 | the rules determine a year's window completely |
| NtpClock.BeginDst | NTP.cpp:279-286 | without a last query nothing changes; otherwise only the window changes, to the window of the last query's year |
| NtpClock.CurrentTime | NTP.cpp:204-224 | UTC now as `CurrentUtc`; local adds the base offset and, when armed and inside the old window, the DST extra; `current` is its breakdown; only a later local year recomputes the window, which is otherwise kept; `yearDST` never decreases |
| NtpClock.RuleOffsets | NTP.cpp:60-61 | the base offset is the leaving rule's offset and base plus extra is the entering rule's offset, in seconds; nothing else changes |
| NtpClock.ArmDst | NTP.cpp:59-63 | offsets from the rules, one query judged against the window held before, and the window of that query's year; request and anchor kept |
| NtpClock.Init | NTP.cpp:46-65 | the request is built, the anchor is what the sync leaves, and whether DST is armed is unchanged |
| NtpClock.InitUnarmed | NTP.cpp:57-59 | without DST armed `init` leaves zone, window and last query alone |
| NtpClock.InitArmed | NTP.cpp:57-63 | with DST armed `init` leaves the rule offsets, a query at the synced anchor judged against the old window, and that query year's window |
| NtpClock.TzName | NTP.cpp:173-179 | a zone name exactly when DST is armed: the entering rule's inside the window and the leaving rule's outside it |
| NtpClock.Epoch | NTP.cpp:199-202 | refreshes the state as `currentTime` and returns UTC now |
| NtpClock.LocalCivil | NTP.cpp:226-266 | refreshes the state as `currentTime` and returns a valid civil time whose seconds are the local time; `month()` is its `mon + 1`, the other accessors read a field as is |
| NtpClockProps.SyncFromServerReply | NTP.cpp:103-108 | a reply with nonzero seconds `ts` returns true and sets `lastUpdate`, `ntpTime` = ts and `utcTime` = ts - 2208988800 (mod 2^32), nothing else |
| NtpClockProps.ZeroReplyOnlyStamps | NTP.cpp:91-108 | a reply with zero seconds returns false yet stamps `lastUpdate`, nothing else |
| NtpClockProps.ReceiveZero | NTP.cpp:91-107 | a zero-seconds reply moves only the anchor's tick |
| NtpClockProps.EpochRightAfterSync | NTP.cpp:199-205 | read at the reply's tick, `epoch()` is the reply's seconds on the Unix epoch |
| NtpClockProps.AccessorsAfterSync | NTP.cpp:322-328 | after a good reply `ntp()` (`NtpClock.Ntp`) is its seconds and `utc()` (`NtpClock.Utc`) plus 2208988800 wraps to `ntp()` |
| NtpClockProps.ElapsedSeconds | NTP.cpp:205 | `d` ms after the anchor tick the clock reads `utcTime` + d/1000, wrapping at 2^32 |
| NtpClockProps.CurrentUtcMonotone | NTP.cpp:205 | with a fixed anchor and no wrap the extrapolated clock never runs backwards |
| NtpClockProps.UpdateThrottled | NTP.cpp:71-76 | after a reply stamped at a nonzero tick, `update` stays quiet until a full interval has passed |
| NtpClockProps.StampAtTickZeroKeepsSyncing | NTP.cpp:72 | a reply stamped at tick 0 leaves `lastUpdate` at 0, its start-up value, so every later `update` syncs |
| NtpClockProps.LocalFollowsRuleOffsets | NTP.cpp:206-216 | with the rule offsets, local time is UTC plus the entering rule's offset inside the window and the leaving rule's outside it |
| NtpClockProps.RuleOffsetsSettled | NTP.cpp:60-61 | deriving the offsets keeps the rules and flags, so deriving them again changes nothing |
| NtpClockProps.InitArmsRuleOffsets | NTP.cpp:59-63 | after `init` with DST armed, every query's local time follows the two rules' own offsets |
| NtpClockProps.UnarmedLocalIsBaseOffset | NTP.cpp:219-222 | without DST armed, local time is UTC plus the base offset and the window is kept |
| NtpClockProps.Queries | NTP.cpp:204-224 | any run of queries keeps zone, anchor and request |
| NtpClockProps.QueriesNeverRewindYear | NTP.cpp:217 | across any run of queries `yearDST` never decreases |
| NtpClockProps.NewYearUsesStaleWindowOnce | NTP.cpp:207-217 | the first query in a new local year is classified with the old window; the new window is computed then and classifies the next query |
| NtpClockProps.SummerTimeEdges | NTP.cpp:313-320 | `summerTime()` (`NtpClock.SummerTime`) is false at the window's start instant, true at its end instant when the window is proper, and false just after the end |
| NtpClockProps.IsDstMatchesOffset | NTP.cpp:195-197 | `isDST()` (`NtpClock.IsDst`) after a query that kept the window is true exactly when that query's local time carries the DST extra, for a nonzero extra |
| NtpClockProps.InvertedWindowNeverSummer | NTP.cpp:313-320 | an empty or inverted window classifies nothing as DST, so the query gets the base offset alone |
| NtpClockProps.CrossYearWindowInverted | NTP.cpp:279-286 | when DST starts in a later month than it ends and adds time, the computed window is inverted |
| NtpClockProps.SameYearWindowOrdered | NTP.cpp:279-286 | when DST starts in an earlier month than it ends, adds at most an hour, and does not start at 23:00 when it ends at 00:00, the window is a proper interval |
| NtpClockProps.TimeZoneLastWins | NTP.cpp:181-189 | each `timeZone` call replaces the base offset: only the last call counts |
| NtpClockProps.IsDstIgnoresZoneFlag | NTP.cpp:191-197 | switching observance off does not change `isDST()`, while `tzName()` falls back to GMT |
| NtpClockProps.TzNameReportsStoredNames | NTP.cpp:117-179 | after both rules are set with observance on, `tzName()` is the name given to `ruleDST` (cut to capacity - 1) in DST and the name given to `ruleSTD` otherwise |
| NtpClockProps.OutOfRangeRuleIgnored | NTP.cpp:117-122 | a week out of range leaves the whole state unchanged for both rule setters |
| EuScenario.SpringForward2024 | NTP.cpp:288-311 | "last Sunday of March, 02:00" names 2024-03-31 02:00 |
| EuScenario.FallBack2024 | NTP.cpp:288-311 | "last Sunday of October, 03:00" names 2024-10-27 03:00 |
| EuScenario.EuWindow2024 | NTP.cpp:279-286 | the central-European 2024 window runs from 01:00 UTC on March 31 to 01:00 UTC on October 27 |
| EuScenario.JuneReadsSummerTime | NTP.cpp:204-224 | noon UTC on 2024-06-15 reads 14:00 summer time, named by the entering rule |
| EuScenario.DecemberReadsStandardTime | NTP.cpp:204-224 | noon UTC on 2024-12-15 reads 13:00 standard time, named by the leaving rule |
| EuScenario.ConfigureEu | NTP.cpp:117-193 | setting both rules and observance arms DST with the central-European rules and keeps window, query and anchor |
| EuScenario.StartUpInJune | NTP.cpp:46-65 | configuring the rules and `init` with a June reply reads 13:00 on its own query, then leaves the 2024 window, reports DST and reads 14:00 on the next query |

## Left out

- Transport:
  - UDP socket setup, sending, `parsePacket` polling, the one-second timeout loop and `delay(1)` (NTP.cpp:57, 79-90) are I/O.
  - A reply is a parameter: none on a timeout, or the 48 bytes read.
- Clock and server:
  - The `millis()` tick is a parameter. Nothing ties the successive ticks of one call together.
  - `begin`'s server name or address copy (NTP.cpp:33-44) is not modelled. Neither are the constructor, destructor and `stop`.
- Text formatting:
  - The `ctime`/`strftime` strings: `ruleDST()`, `ruleSTD()` and `formattedTime()` (NTP.cpp:134-171, 268-277).
  - The fixed GMT message of `tzName()`, which `TzName` returns as None.
- The C library time calls:
  - `gmtime` returning null, and the accessor fallbacks for that case (NTP.cpp:210, 215, 222, 226-266). The UTC calendar is total.
  - The host zone and `tm_isdst` of the library's `mktime` are not modelled; the host zone is UTC.
- NTP.h is not part of this model. From it the model takes:
  - the 48-byte packet;
  - the epoch constant 2208988800;
  - 60 seconds per minute and 86400 per day;
  - `uint32_t` for `ntpTime`, `utcTime`, `lastUpdate` and `interval`;
  - a start-up value of 0 for `lastUpdate`, so the first `update` syncs;
  - an unbounded `time_t`.
- The AVR branch (NTP.cpp:93-101) is not modelled separately. It decodes the same big-endian value, but subtracts NTP.h's `NTP_OFFSET` (NTP.cpp:99) rather than `SEVENTYYEARS`. `NTP_OFFSET` is not modelled: its value is not available here and may differ from 2208988800 (AVR-libc counts `time_t` from 2000).
- Calendar.MkTime: stated for day 1..28 and an in-range time of day, which covers every call `calcDateDST` makes. The normalisation of other out-of-range fields is computed but not stated.
- NtpClock.TimeZone: the sign and magnitude reading is stated for non-negative minutes. The setter's own arithmetic is unchanged for negative minutes.
- NtpClock.TimeZone: C `int` is taken to be at least 32 bits. On a 16-bit `int` (AVR), `tzHours * 3600` at NTP.cpp:182 overflows from 10 hours on. That overflow is not modelled, and the contract does not hold there.
- NtpClock.RuleOffsets: `tzOffset * SECS_PER_MINUTES` (NTP.cpp:60-61, 282, 284) is computed without overflow, as on a 32-bit `int`. The same holds for `ComputeWindow`.
- Rules.StoreName: names are taken to be ASCII, one character per byte. `strncpy` cuts at capacity - 1 bytes, so a multi-byte name could be cut inside a character; the model cuts whole characters.
- NtpClock.CurrentUtc: assumes `utcTime` is `uint32_t`, so the sum at NTP.cpp:205 wraps at 2^32 before it reaches `time_t`.
- NtpClock.CurrentTime: requires `Wf`. That means a rule is marked configured only after it passed validation. The setters keep this. It also holds at start-up if the initial flag values in NTP.h are false; those values are assumed.
- NtpClock.MakeRule: requires a name without NUL and a buffer of at least one character. A C string and a declared buffer always meet both.
- NtpClock.LocalCivil: returns the whole civil time rather than the seven accessors' values. `Civil.mon` is 0..11, so `month()` is `mon + 1`; the other accessors are the fields as they stand, with `year` already the full year.
- NtpClock.Init: its own contract covers the request, the anchor and whether DST is armed. The zone, window and query are stated by `InitArmed` and `InitUnarmed`.
- The rollover branch of `calcDateDST` (NTP.cpp:292-295) is modelled as written: it tests the month before the increment, so it is dead for every rule that passed validation. December's successor therefore reaches `MkTime` as month index 12, which `MkTime` normalises.
