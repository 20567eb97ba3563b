# Pump controller: verified models

Models and proofs, in Dafny 4.11, for the stateful parts of the pump controller firmware: the
running clock and its time triggers, the cyclic vectors and their flash records, the event list,
the heap trace table, the drift-compensating task loop, the alarm latch, the UTF-8 checker, and
values kept between limits. `dafny verify dfyconfig.toml` checks everything.

Where the source updates objects in place, the model has a class with the same fields and a
method per operation. Each method is proved against a function of the old state, and the
properties over whole runs are lemmas about these functions.

| file | source | content |
|---|---|---|
| CInt.dfy, Seqs.dfy | | C integers and sequence rearrangements |
| Calendar.dfy | util/MpcTime.cpp | calendar arithmetic against the Gregorian calendar and the seconds-since-the-Epoch expression of IEEE Std 1003.1-2017, section 4.16 |
| ActTime.dfy | util/ActTime.cpp, util/MpcTime.cpp | the running clock, its carry chain and its seconds counter |
| TimeTrigger.dfy | util/MpcTimeCmpCtrl.cpp | triggers on top of the clock, counted against boundary seconds |
| VectorDataPoint.dfy, VectorSums.dfy | datapoint/VectorDataPoint.h | the ring and its logical sequence; sums and averages |
| FlashBlock.dfy | application/config/FlashBlock.cpp | the byte cursor records are written to and read from |
| VectorRecord.dfy, VectorFlash.dfy, EventLogFlash.dfy | datapoint/I32VectorDataPoint.h, datapoint/EventLogVectorDataPoint.h | flash records of vectors |
| EventList.dfy | util/EventList.cpp | sort, interval query, step function |
| HeapTrace.dfy | new.cpp | the allocation table |
| Scheduler.dfy | main.cpp | LowPrioPeriodicTask |
| Alarm.dfy | datapoint/AlarmDataPoint.h | the alarm latch and counter |
| Utf8.dfy | datapoint/StringDataPoint.cpp, application/win32/ConvertUTF.c | the string checker against section 4 of RFC 3629 |
| MinMaxDataPoint.dfy | datapoint/MinMaxDataPoint.h, datapoint/I32DataPoint.h, datapoint/NumberDataPoint.h | limits, percentages, restore order |

## Where the code and its promise differ

The model follows the code. Each of these is stated with the exact condition under which the code
does what its name or documentation says.

- Leap years: the test in util/MpcTime.cpp:611-619 takes every fourth year. It is right exactly
  outside the common centuries, so on all of 2000..2099 (`LeapYearIsGregorian`).
- Fields from seconds: util/MpcTime.cpp:321 and 339 compare with `>`, so the first second of a
  month becomes the day after the last of the month before; seconds up to 946684800 are ignored;
  the counter is never set; and from March 1, 2100 on, where the leap test is wrong, the date is a
  day behind (`SetFromSecondsExact`, `ActTime.SetSecondsSince1Jan1970`).
- A clock that was never set starts to run with its first tick, at 2000-01-01 and with its counter
  at 0, so that the two disagree (`UnsetClockDisagrees`; in general `AgreesExactlyWhen` and
  `SaturationExactlyAtEnd`).
- Weekday: January and February of a common century come out a day wrong, by the same leap test
  (`WeekdayExactlyWhen`).
- A day past the end of its month, as just described, is lost when the clock runs on
  (`LateDayIsLost`).
- Day of year: util/MpcTime.cpp:599 adds the length of the current month on each turn
  (`DayOfYearExactlyWhen`).
- Range reads of a ring start again at slot 0 when offset + index exceeds the size, and an index
  close to 2^32 is taken for a negative one (`RangeReadExactlyWhen`); copies go to physical slots
  (`CopyExactlyWhen`, `SelfCopyExactlyWhen`).
- The average divides unsigned (`AverageExactlyWhen`), and index + number may wrap
  (`ScannedExactlyWhen`).
- The event sort is not stable, so lookups depend on the order of insertion exactly when two
  different events have the same time (`OrderFreeExactlyWhen`). An interval query lets a start after
  the stop through when the start is not positive, and leaves the start index unwritten for an empty
  list or status 1 (`QueryEvents`).
- The heap trace never finds the block in slot 0, so freeing the oldest block always ends in
  the error loop (`FreeingOldestGetsStuck`, `OldestStays`).
- The UTF-8 check accepts surrogates (no case for 0xED) and 0xF4 followed by an ASCII byte
  (`LegalSequence`, `CheckExactly`); correcting a broken last character overwrites the terminator
  (`KeepsLengthExactly`); correction leaves the former in place (`CorrectedIsWellFormed`).
- The percentage is 0 when max - min does not fit in an int (`PercentExactlyWhen`).

## Model

| member | source | states |
|---|---|---|
| Calendar.LeapYearIsGregorian | util/MpcTime.cpp:611-619 | The leap-year test is the Gregorian one exactly in the years that are not centuries, or are divisible by 400; 1900 and 2100 come out as leap years. |
| Calendar.MonthLengths | util/MpcTime.cpp:522-550 | In 2000..2099 every month has its Gregorian length. |
| Calendar.MonthLengthsEverywhere | util/MpcTime.cpp:522-550 | In every other year February has 29 days exactly in every fourth; a month that is none has no days. |
| Calendar.LegalExactlyWhen | util/MpcTime.cpp:490-508 | A time is legal exactly when it is a Gregorian one in 2000..2099. |
| Calendar.SumsOutside | util/MpcTime.cpp:391-405 | No years or months sum to nothing, and more than twelve months to the whole year. |
| Calendar.SummedIsPosix | util/MpcTime.cpp:384-420 | For every legal time the year and month loops add up to the closed expression of section 4.16 of IEEE Std 1003.1-2017, and the result fits in 32 unsigned bits. |
| Calendar.PosixInjective | util/MpcTime.cpp:490-508 | No two legal times have the same number of seconds. |
| Calendar.SetFromSecondsExact | util/MpcTime.cpp:302-366 | For every Gregorian time from 2000 on whose seconds fit in 32 bits, the fields computed from them are that time exactly when it is not the first second of a month and lies before March 1, 2100; the first second of a month becomes day Last+1 of the month before, which is not legal. |
| Calendar.SourceRunsAhead | util/MpcTime.cpp:611-619 | The sum of the source is the standard's one up to February 28, 2100, and one day more from March 1 on, until 32 bits of seconds end in 2106. |
| Calendar.WeekdayExactlyWhen | util/MpcTime.cpp:557-583 | For every date of the years from 0 on, even one past the end of its month, the doomsday rule gives the weekday found by counting days from Thursday, January 1, 1970, exactly outside January and February of the common centuries. |
| Calendar.WeekdayCountsDays | util/MpcTime.cpp:557-583 | So on every legal time it does. |
| Calendar.WeekdayUnknown | util/MpcTime.cpp:557-566 | For a month that is none the stored day of the week stays. |
| Calendar.DayOfYearExactlyWhen | util/MpcTime.cpp:590-604 | The computed day of year is right exactly in January and in the April of a common year, because the length of the current month is added for every earlier one. |
| Clocks.CarryAddsOne | util/ActTime.cpp:186-205 | The carry chain moves the fields on by exactly one second in every year from 2000, on the month and year lengths the source uses. |
| Clocks.LateDayIsLost | util/ActTime.cpp:193-203 | On a day past the end of its month the chain also adds one second, except that the days past the end are lost with its last second. |
| Clocks.LimitExactly | util/ActTime.cpp:248-277 | Years in 2000..2099 are left alone, later ones and 1900 give 2099-12-31 23:59:59, the others 2000-01-01 00:00:00. |
| Clocks.CarryIsNextSecond | util/ActTime.cpp:177-215 | Carry and LimitTime step from each legal time to the legal time one second later, except that the last second of 2099 stays. |
| Clocks.RunFromLegal | util/ActTime.cpp:177-277 | From any legal fields with any counter, n ticks lead to legal fields n seconds later, or to the last second of 2099, and add n to the counter modulo 2^32. |
| Clocks.RunOfTicks | util/ActTime.cpp:177-215 | For every run of n ticks from an agreeing state that ends by 2099-12-31 23:59:59 the fields stay legal, show a time n seconds later and equal the counter, which stays below 2^32. |
| Clocks.AgreesExactlyWhen | util/ActTime.cpp:177-215 | Until then a run from any legal fields agrees with its counter after n ticks if and only if it did before. |
| Clocks.SaturationExactlyAtEnd | util/ActTime.cpp:248-277 | For any number of ticks, fields and counter still agree if and only if the run ends by the end of 2099 or the counter has wrapped around to that very second; after it the fields stand still and the counter goes on. |
| Clocks.UnsetClockDisagrees | util/ActTime.cpp:208-214 | A clock that was never set shows the first second of 2000 with counter 0 after one tick, and disagrees with its counter from then on until the end of 2099. |
| Clocks.AddYears | util/MpcTime.cpp:391-399 | The year loop leaves the running sum modulo 2^32. |
| Clocks.AddMonths | util/MpcTime.cpp:401-405 | The month loop adds the month sum modulo 2^32 to it. |
| Clocks.FindYear | util/MpcTime.cpp:309-330 | Finds the year in which the given seconds end, each year being left only when more seconds remain than it has. |
| Clocks.FindMonth | util/MpcTime.cpp:332-348 | Finds the month of that year in the same way, and it is one of the twelve. |
| Clocks.ActTime.constructor | util/MpcTime.cpp:96-107 | A clock made without the current time has no field set and counter 0. |
| Clocks.ActTime.CalcSecondsSince1Jan1970 | util/MpcTime.cpp:384-420 | The counter becomes the sum of the fields modulo 2^32, 0 when a field is not set; on legal fields it agrees with them. |
| Clocks.ActTime.LimitTime | util/ActTime.cpp:248-277 | Years after 2099 and the year 1900 become the last second of 2099, earlier years the first second of 2000. |
| Clocks.ActTime.IncSec | util/ActTime.cpp:177-215 | One call is one tick in every state, valid or not; on an agreeing clock before the end of 2099 it leads to the agreeing state one second later, and observers are notified once. |
| Clocks.ActTime.CarrySecond | util/ActTime.cpp:186-205 | The nested increments are the carry of the reference step. |
| Clocks.ActTime.Set | util/ActTime.cpp:135-151 | Copies and limits the six fields, takes over the recomputed weekday, recalculates the counter; a legal result agrees. |
| Clocks.ActTime.SetTime | util/ActTime.cpp:84-105 | Each kind sets its field; seconds since midnight are split into fields that add up to them, negative ones with negative remainders; only SECONDS notifies; a legal result agrees with its counter. |
| Clocks.ActTime.SetDate | util/ActTime.cpp:111-129 | Each kind sets its field and the counter follows. |
| Clocks.ActTime.SetSecondsSince1Jan1970 | util/MpcTime.cpp:302-366 | Up to 946684800 nothing happens; later the fields add up to the given seconds in the month-late normal form, the weekday follows, and the counter is not touched. |
| Clocks.ActTime.CalcWeekday | util/MpcTime.cpp:557-583 | The stored weekday is the doomsday value, or unchanged when month or century is unknown. |
| Clocks.ActTime.CalcDayOfYear | util/MpcTime.cpp:590-604 | The loop leaves (month-1) times the length of the current month, plus the day. |
| TimeTriggers.Rollovers | util/ActTime.cpp:186-205 | Minute, hour and day change in the tick that enters a second divisible by 60, 3600, 86400, and in no other. |
| TimeTriggers.ComparesAtBoundary | util/MpcTimeCmpCtrl.cpp:137-180 | On a legal minute start the nested field comparisons hold exactly at the boundary seconds of the target. |
| TimeTriggers.ComparesInMinute | util/MpcTimeCmpCtrl.cpp:137-180 | Anywhere within a minute they compare with the boundary that started it. |
| TimeTriggers.StepExactly | util/MpcTimeCmpCtrl.cpp:118-209 | What one call does in any state, after any jump of the clock to a legal time: nothing without a new time or within the minute last seen; otherwise a minute trigger notifies, an hour or day trigger when its hour or day is not the one last seen and this is not the first call, a comparing one when a boundary started the minute. |
| TimeTriggers.TickFiresAtBoundary | util/MpcTimeCmpCtrl.cpp:103-209 | One tick notifies exactly when the second it enters is a boundary of the trigger. |
| TimeTriggers.PollDoesNotFire | util/MpcTimeCmpCtrl.cpp:103-111 | An update by another subject, or an extra task call, never notifies and changes nothing. |
| TimeTriggers.FiresOncePerBoundary | util/MpcTimeCmpCtrl.cpp:103-209 | Over every sequence of ticks and idle calls that ends by the end of 2099, a synchronised trigger of any of the six kinds notifies exactly once per boundary passed, and stays synchronised. |
| TimeTriggers.FirstUpdate | util/MpcTimeCmpCtrl.cpp:128-137 | The first update synchronises a new trigger and notifies exactly for MINUTE_TRIGGER or when the time already compares equal. |
| TimeTriggers.RepeatingCount | util/MpcTimeCmpCtrl.cpp:158-200 | The number of notifications of a repeating trigger over any interval in closed form; for hour and day triggers these are the hour and day roll-overs. |
| TimeTriggers.OncePerPeriod | util/MpcTimeCmpCtrl.cpp:158-180 | A time of day is met exactly once in any 86400 ticks, a weekday and time once in any 604800, an impossible target never. |
| TimeTriggers.DateCount | util/MpcTimeCmpCtrl.cpp:139-156 | A date and time is met at most once: once when it is legal and lies in the interval. |
| TimeTriggers.MpcTimeCmpCtrl.constructor | util/MpcTimeCmpCtrl.cpp:67-76 | A new trigger has a new time pending and has seen no minute. |
| TimeTriggers.MpcTimeCmpCtrl.ChangeTime | util/MpcTimeCmpCtrl.cpp:82-85 | Replaces the target time object and nothing else. |
| TimeTriggers.MpcTimeCmpCtrl.Update | util/MpcTimeCmpCtrl.cpp:103-111 | Marks a new time only for the clock, then takes one step. |
| TimeTriggers.MpcTimeCmpCtrl.RunSubTask | util/MpcTimeCmpCtrl.cpp:118-209 | State and notification are those of the step function, for any clock and target, even one object used as both. |
| TimeTriggers.MpcTimeCmpCtrl.SameDayOfWeek | util/MpcTimeCmpCtrl.cpp:163-166 | The comparison of two recomputed days of the week, which leaves the target's day what it was. |
| TimeTriggers.TickAndUpdate | util/MpcTimeCmpCtrl.cpp:103-111 | One tick of a clock object with the update it causes keeps the notifications of the trigger object in step with the boundaries. |
| TimeTriggers.RunTogether | util/MpcTimeCmpCtrl.cpp:103-209 | A clock and a synchronised trigger run together for any number of ticks up to the end of 2099: the trigger has notified exactly once per boundary passed, and both still agree. |
| TimeTriggers.WeekdayStable | util/MpcTime.cpp:271-295 | Reading the day of week, which recomputes it, twice gives the same answer. |
| Vectors.RotateIndex | datapoint/VectorDataPoint.h:198-204 | Logical index i is slot (i + offset) % size. |
| Vectors.PushRotates | datapoint/VectorDataPoint.h:398-409 | Stepping the offset back and writing there is a push on the logical sequence. |
| Vectors.PushTimesClosed | datapoint/VectorDataPoint.h:388-423 | k pushes of one value move everything k places and fill the front. |
| Vectors.PushHistory | datapoint/VectorDataPoint.h:388-423 | However many values are pushed, the vector shows the latest ones, newest first, and behind them what is left of the start. |
| Vectors.RangeReadExactlyWhen | datapoint/VectorDataPoint.h:260-285 | For all arguments for which the call stays inside the vector, it answers what was asked, whatever the contents, exactly when it is refused, or index + number does not wrap and either offset + index is at most the size or nothing is asked for. |
| Vectors.RangeReadElements | datapoint/VectorDataPoint.h:260-285 | Element by element, what is delivered where it is not what was asked: slots from 0 on for a read past the physical end, the last elements and then the first ones for a wrapped index. |
| Vectors.WrappedIndex | datapoint/VectorDataPoint.h:269-272 | A sum of index and number that wraps around 32 bits is readable only if 2^32 - index is at most the offset; then index acts as a small negative number. |
| Vectors.CopyExactlyWhen | datapoint/VectorDataPoint.h:292-316 | After copying m values into a vector of size n, whatever the contents, the target shows them first (and its former elements behind them) exactly when it is not rotated or m is 0. |
| Vectors.SelfCopyExactlyWhen | datapoint/VectorDataPoint.h:292-316 | A vector copied onto itself shows what it showed before, whatever the contents, exactly when it is not rotated. |
| Vectors.CopiedElements | datapoint/VectorDataPoint.h:292-316 | Slot by slot, what a copy leaves: the source's logical values, or for a rotated vector copied onto itself the values behind its offset, repeated. |
| Vectors.SetAtElements | datapoint/VectorDataPoint.h:188-230 | Element by element, what setting does: only the index receives the value, what was there stays, and growth is filled with the default. |
| Vectors.VectorDataPoint.constructor | datapoint/VectorDataPoint.h:69-73 | A new vector shows initialSize default values at offset 0. |
| Vectors.VectorDataPoint.Clear | datapoint/VectorDataPoint.h:171-181 | All elements become the default, the size stays and the offset is 0. |
| Vectors.VectorDataPoint.SetValue | datapoint/VectorDataPoint.h:188-230 | Sets the logical element, grows with defaults below the maximal size, ignores other indices; notifies exactly on a change; only a full vector is ever rotated, so growing never meets a rotation. |
| Vectors.VectorDataPoint.GetValue | datapoint/VectorDataPoint.h:237-254 | The logical element, or the default outside the vector. |
| Vectors.VectorDataPoint.GetValues | datapoint/VectorDataPoint.h:260-285 | Delivers the logical run from index, or from size - offset when offset + index exceeds the size, or, when index + number wraps, the last 2^32 - index elements and then the first ones; the rest of the destination, and all of it on refusal, is untouched. |
| Vectors.VectorDataPoint.CopyValues | datapoint/VectorDataPoint.h:292-316 | The source's logical values land in the physical slots, further slots stay; a rotated vector copied onto itself ends up repeating the values behind its offset; notifies exactly on a change. |
| Vectors.VectorDataPoint.PushValue | datapoint/VectorDataPoint.h:388-423 | On a full vector min(no_of_times, size) pushes; on any other nothing; rotation stays confined to full vectors. |
| VectorSums.ScannedExactlyWhen | datapoint/VectorDataPoint.h:324-352 | The window summed is the requested one cut at the size exactly when index + number does not wrap or lies outside. |
| VectorSums.GetSumValid | datapoint/VectorDataPoint.h:324-352 | 32-bit sum, and number, of the elements of that window that do not carry the mark, in a ring with any offset. |
| VectorSums.GetSum | datapoint/VectorDataPoint.h:358-362 | The same sum. |
| VectorSums.GetAverage | datapoint/VectorDataPoint.h:369-381 | 0 without valid elements, otherwise the unsigned quotient of sum and count. |
| VectorSums.AdjacentWindows | datapoint/VectorDataPoint.h:324-352 | Sums and counts of adjacent windows add up. |
| VectorSums.WindowsAddUp | datapoint/VectorDataPoint.h:324-352 | Windows of a vector that meet add up to the whole one in elements, sum and count; one element counts for itself, or not at all when marked. |
| VectorSums.SumAfterPush | datapoint/VectorDataPoint.h:324-423 | After pushing a valid v the first k elements sum to v plus the former sum of the first k-1. |
| VectorSums.AverageBetween | datapoint/VectorDataPoint.h:369-381 | For non-negative values whose sum fits, the average lies between the least and the greatest valid value. |
| VectorSums.AverageExactlyWhen | datapoint/VectorDataPoint.h:369-381 | The unsigned division gives the signed average exactly when the sum is not negative or there is one valid value. |
| Flash.ValueOfBytes | application/config/FlashBlock.cpp:281-306 | A value that fits reads back from its little-endian bytes. |
| Flash.LittleEndian | application/config/FlashBlock.cpp:281-290 | Byte i of a stored value is its i-th digit in base 256. |
| Flash.EmitWholeRecord | application/config/FlashBlock.cpp:1043-1054 | Writing field by field ends in an error exactly when the record does not fit, and otherwise appends all of it. |
| Flash.TakeBack | application/config/FlashBlock.cpp:265-306 | A field at the head of a record reads back and exactly its bytes are consumed. |
| Flash.RecordAdded | application/config/FlashBlock.cpp:1043-1054 | With room for it, what a record adds to the block is its encoding. |
| Flash.FlashBlock.StartRead | application/config/FlashBlock.cpp:736-738 | Reading starts at the given record, and its bytes are the input. |
| Flash.FlashBlock.CanWrite | application/config/FlashBlock.cpp:1043-1054 | The write error is sticky and is raised when room is short. |
| Flash.FlashBlock.CanRead | application/config/FlashBlock.cpp:1060-1071 | The read error is sticky and is raised when the record is exhausted. |
| Flash.FlashBlock.Write | application/config/FlashBlock.cpp:157-166 | Appends the bytes or raises the error, changes no byte behind them, and marks the block modified exactly when a byte changed. |
| Flash.FlashBlock.WriteI32 | application/config/FlashBlock.cpp:281-290 | The same for a signed 32-bit value. |
| Flash.FlashBlock.Read | application/config/FlashBlock.cpp:172-182 | The next value, or the default without moving on; the end of the record stays where it is. |
| Flash.FlashBlock.ReadU8 | application/config/FlashBlock.cpp:172-182 | The next unsigned byte, or the default. |
| Flash.FlashBlock.ReadU16 | application/config/FlashBlock.cpp:203-213 | The next unsigned 16-bit value, or the default. |
| Flash.FlashBlock.ReadU32 | application/config/FlashBlock.cpp:265-275 | The next unsigned 32-bit value, or the default. |
| Flash.FlashBlock.ReadI32 | application/config/FlashBlock.cpp:296-306 | The same for a signed 32-bit value. |
| VectorRecords.SetFrontClosed | datapoint/VectorDataPoint.h:188-230 | Setting indices 0, 1, ... in turn puts the values at their logical indices as far as there is room and leaves what is behind them. |
| VectorRecords.SetFrontStep | datapoint/VectorDataPoint.h:188-230 | One more value set changes the contents, and notifies, exactly when there is room for it and it is new at its index. |
| VectorRecords.TakeManyBack | datapoint/I32VectorDataPoint.h:100-134 | For any element codec that reads back what it writes, a whole sequence reads back and exactly its bytes are consumed. |
| VectorRecords.CellAt | datapoint/I32VectorDataPoint.h:100-110 | Elements of equal width stand one behind the other in the record. |
| VectorFlash.I32Layout | datapoint/I32VectorDataPoint.h:91-111 | Where everything stands in the record: maximal size, size, and each possible element in logical order, with the default behind the last. |
| VectorFlash.I32Truncated | datapoint/I32VectorDataPoint.h:116-135 | From a record that ends early the complete cells are read and the others read as the default. |
| VectorFlash.I32RoundTrip | datapoint/I32VectorDataPoint.h:91-135 | For all ring offsets, sizes and old contents, loading a saved record gives the saved elements as far as saved and as there is room, defaults behind them, and consumes exactly the record. |
| VectorFlash.I32SaveThenLoad | datapoint/I32VectorDataPoint.h:91-135 | The same for the bytes a save really adds to a block with room. |
| VectorFlash.SaveI32Vector | datapoint/I32VectorDataPoint.h:91-111 | Writes maximal size, size, and one cell per possible element in logical order, padded with the default. |
| VectorFlash.LoadI32Vector | datapoint/I32VectorDataPoint.h:116-135 | On any bytes at all: clears, consumes as many cells as announced, sets those below the saved size; observers hear of exactly the elements that change after the clearing. |
| VectorFlash.SaveAndReload | datapoint/I32VectorDataPoint.h:91-135 | On real objects: a vector saved to a block with room, and another one loaded from there, shows the saved elements with defaults behind them. |
| EventLogFlash.EventLayout | datapoint/EventLogVectorDataPoint.h:165-169 | Where the five fields of an event stand in its nine bytes. |
| EventLogFlash.EventLogLayout | datapoint/EventLogVectorDataPoint.h:147-180 | Where everything stands in the record: the version 1, maximal size, size, and each possible event in logical order, with the default behind the last. |
| EventLogFlash.EventFromNothing | datapoint/EventLogVectorDataPoint.h:199-203 | From an exhausted record all fields of an event read as 0. |
| EventLogFlash.EventLogRoundTrip | datapoint/EventLogVectorDataPoint.h:147-209 | For all offsets and old contents, loading a saved log puts every saved event at its logical index, leaves the elements behind them as they were, and consumes exactly the record. |
| EventLogFlash.EventLogSaveThenLoad | datapoint/EventLogVectorDataPoint.h:147-209 | The same for the bytes a save really adds to a block with room. |
| EventLogFlash.OtherVersionIgnored | datapoint/EventLogVectorDataPoint.h:185-195 | A record of another version changes nothing. |
| EventLogFlash.SaveEventLog | datapoint/EventLogVectorDataPoint.h:147-180 | Writes the version, the sizes, and five fields per possible element in logical order. |
| EventLogFlash.LoadEventLog | datapoint/EventLogVectorDataPoint.h:185-209 | On any bytes at all: without clearing, sets the events below the saved size; observers hear of exactly the elements that change. |
| EventLists.SortsAndPermutes | util/EventList.cpp:95-112 | For every list the exchange sort leaves a list sorted by time and a permutation of the former one. |
| EventLists.OrderFreeExactlyWhen | util/EventList.cpp:95-112 | Every list of the same events is sorted to the same list if and only if no two different events have the same time. |
| EventLists.OrderIndependent | util/EventList.cpp:95-112 | So with distinct times no later lookup depends on the order of insertion. |
| EventLists.EqualTimesDepend | util/EventList.cpp:95-112 | The smallest lists for which it does: two events of one time in front of an earlier one. |
| EventLists.BelowSplits | util/EventList.cpp:178-200 | On a sorted list the events before a time are exactly the first ones. |
| EventLists.QueryMeaning | util/EventList.cpp:178-212 | Where the two scans stop, the indices between are exactly the events in the interval. |
| EventLists.QueryOnSorted | util/EventList.cpp:178-212 | On a sorted list the first event not before the start, and the first one from there after the stop, bound exactly the events in the interval. |
| EventLists.ValueIsLast | util/EventList.cpp:248-283 | On a sorted list the value at a time is that of the last event at or before it, or -1 when there is none. |
| EventLists.NextIsLeast | util/EventList.cpp:225-242 | On a sorted list the next time is the least later one, or -1 when there is none. |
| EventLists.AdjacentCounts | util/EventList.cpp:162-219 | Counts over adjacent intervals add up. |
| EventLists.ValueConstantUntilNext | util/EventList.cpp:225-283 | The value does not change until the time GetTimeForNextEvent names. |
| EventLists.EventList.constructor | util/EventList.cpp:62-71 | A new list is empty. |
| EventLists.EventList.AddEvent | util/EventList.cpp:119-129 | Appends the event, or refuses the 22nd. |
| EventLists.EventList.GetEvent | util/EventList.cpp:135-156 | The event at an index inside the list; outside status 2 and nothing written. |
| EventLists.EventList.SortEvents | util/EventList.cpp:95-112 | Sorts in place: sorted, a permutation, slots behind the list untouched. |
| EventLists.EventList.SelectLeast | util/EventList.cpp:101-110 | The inner loop is the selection step of the reference sort. |
| EventLists.EventList.QueryEvents | util/EventList.cpp:162-219 | Ends without leaving the list; status 1 exactly for a start after the stop that is above 0; with status 0 on every non-empty list the first event not before the start and the first one from there after the stop; on a sorted one [start, start+count) is exactly the indices inside the interval. |
| EventLists.EventList.GetTimeForNextEvent | util/EventList.cpp:225-242 | On every list the time of its first event after the given one, or -1; on a sorted list that is the least later time. |
| EventLists.EventList.GetValue | util/EventList.cpp:248-283 | On every list the value before its first event after the given time, or -1; on a sorted list that is the value of the last event at or before it. |
| HeapTraces.AddedOk | new.cpp:217-257 | Filling the first free entry keeps the packed table and the byte count. |
| HeapTraces.RemovedOk | new.cpp:270-300 | Taking one entry out of the packed table keeps it packed, distinct and counted. |
| HeapTraces.FoundExactly | new.cpp:199-214 | Every block but the oldest is found where it stands, and no other address is. |
| HeapTraces.PerformExactly | new.cpp:330-427 | One operation gets stuck exactly for these reasons; otherwise it adds the new block behind the others or takes out just the one freed. |
| HeapTraces.RunHoldsSurvivors | new.cpp:330-427 | A run of allocations and frees ends in an error loop if and only if some step gets no memory, finds as many blocks held as the table has entries, or frees an address that is neither NULL nor that of a held block behind the oldest; otherwise the table holds exactly the blocks allocated and not freed since, in allocation order, each once. |
| HeapTraces.OldestStays | new.cpp:199-214 | Through every such run the oldest block stays in slot 0. |
| HeapTraces.FreeingOldestGetsStuck | new.cpp:270-310 | A run that frees it ends in the error loop, whatever else happens. |
| HeapTraces.HeapTrace.constructor | new.cpp:335-343 | A new table is empty. |
| HeapTraces.HeapTrace.find_block | new.cpp:199-214 | The index of the block, or 0 both for a block that is not there and for the one in slot 0. |
| HeapTraces.HeapTrace.insert_block | new.cpp:217-268 | Fills the first free entry from the search start and counts the bytes, or is stuck when there is none. |
| HeapTraces.HeapTrace.remove_block | new.cpp:270-310 | Removes exactly the entry of the block, closes the gap and takes its bytes off; stuck, and nothing changed, exactly when find_block answers 0. |
| HeapTraces.HeapTrace.compress | new.cpp:286-299 | Moves the entries behind the gap down by one and stops at the first free one. |
| HeapTraces.HeapTrace.mpc_malloc | new.cpp:330-395 | The table stays packed, distinct and byte-exact and the new block comes last; stuck exactly when there is no memory or no free entry. |
| HeapTraces.HeapTrace.mpc_free | new.cpp:402-427 | The table stays packed, distinct and byte-exact without the block; NULL is ignored; stuck exactly for the oldest block and for addresses not in the table. |
| Schedulers.LowPrioPeriodicTask | main.cpp:176-223 | Over any finite number of passes and any clock readings every wait is in [500, 1000] and the lost time in [0, 10000]. |
| Schedulers.OnePass | main.cpp:186-221 | The body of the loop is one turn of the recurrence. |
| Schedulers.TurnInCases | main.cpp:186-221 | One pass on any readings, in plain cases: the loss summed modulo 2^32 and kept within 0 and 10000, the wait shortened by a twentieth of it and kept within 500 and 1000. |
| Schedulers.TurnOnTrueTimes | main.cpp:186-221 | The wrap-around of the 32-bit millisecond clock is invisible while true differences stay below 0x7fff0000. |
| Schedulers.NextLost | main.cpp:194-210 | With exact delays and run times below 500 ms the lost time never grows, falls strictly while it is 20 or more, and below that stays while the period is exactly 1000 ms. |
| Schedulers.LostTimeIsCaughtUp | main.cpp:194-220 | So it is below 20 ms after at most as many passes as milliseconds were lost. |
| Schedulers.SteadyPeriod | main.cpp:190-221 | After more than 9982 passes the task starts exactly once per second. |
| Schedulers.LostTimeTelescopes | main.cpp:194-208 | While no clamp is hit the lost time is the elapsed time minus 1000 ms per pass. |
| Alarms.AlarmIsLatched | datapoint/AlarmDataPoint.h:373-427 | Over every run of reports, acknowledgements, activations, deactivations and configuration changes under manual acknowledge from a quiet point, the alarm is ALARM exactly when an ALARM was reported since the last acknowledgement, and otherwise the latest report since then; switching the point on counts as a report of the latest error. |
| Alarms.NeverAcknowledged | datapoint/AlarmDataPoint.h:373-427 | Without acknowledgements the whole history counts. |
| Alarms.AlarmAfter | datapoint/AlarmDataPoint.h:337-427 | What the alarm is after any events and one more, from any state, in terms of the errors reported and of whether the point is switched on. |
| Alarms.AutoAckSynchronises | datapoint/AlarmDataPoint.h:560-597 | After any events that end in a report, a switch to active or an update under automatic acknowledge, the alarm of an active point is the error last reported; an update of an inactive one leaves READY. |
| Alarms.ReportSynchronises | datapoint/AlarmDataPoint.h:224-251 | Under any configuration and from any state a report or a reactivation leaves the alarm equal to the error, or latched at ALARM from before. |
| Alarms.CounterCountsOnsets | datapoint/AlarmDataPoint.h:386-399 | Over every run without explicit counter writes the counter is the start plus the number of READY-to-not-READY changes of the error, cut at 2000000000 (a start beyond that stays). |
| Alarms.AlarmDataPoint.constructor | datapoint/AlarmDataPoint.h:71-82 | A new point is active, READY, with counter 0. |
| Alarms.AlarmDataPoint.GetAlarmConfig | datapoint/AlarmDataPoint.h:444-455 | The second configuration exactly for setting 1. |
| Alarms.AlarmDataPoint.GetAlarmPresent | datapoint/AlarmDataPoint.h:325-332 | READY while inactive. |
| Alarms.AlarmDataPoint.GetErrorPresent | datapoint/AlarmDataPoint.h:362-368 | READY while inactive. |
| Alarms.AlarmDataPoint.SetAlarmCounter | datapoint/AlarmDataPoint.h:174-194 | Writes the counter; notifies exactly when it or the quality changed. |
| Alarms.AlarmDataPoint.SetAlarmPresent | datapoint/AlarmDataPoint.h:337-357 | One SetAlarm event; notifies exactly on a change. |
| Alarms.AlarmDataPoint.SetErrorPresent | datapoint/AlarmDataPoint.h:373-439 | One Report event under the configuration in force; notifies exactly on a change. |
| Alarms.AlarmDataPoint.SetDataPointActive | datapoint/AlarmDataPoint.h:224-251 | Switching on reports the present error again; one notification for the switch, and one more exactly when that report changes anything. |
| Alarms.AlarmDataPoint.SetActualAlarmConfig | datapoint/AlarmDataPoint.h:503-528 | Settings other than 0 and 1 become 0. |
| Alarms.AlarmDataPoint.Update | datapoint/AlarmDataPoint.h:560-597 | Only the two configurations matter; automatic acknowledge then synchronises the alarm with the visible error; one notification for the update, and one more exactly when the alarm or the quality changes. |
| Utf8.MaskTests | datapoint/StringDataPoint.cpp:173-176 | The mask tests on the lead byte as number ranges. |
| Utf8.LengthByMasks | datapoint/StringDataPoint.cpp:173-176 | The length the scan takes is the one the masks tell, for every byte. |
| Utf8.CorrectedFrom | datapoint/StringDataPoint.cpp:171-190 | Correction goes on character by character: an accepted one is kept, any other replaced byte for byte, what lies behind the string untouched. |
| Utf8.StrayByte | datapoint/StringDataPoint.cpp:173-189 | A byte that leads no character is replaced alone, and the scan goes on right behind it. |
| Utf8.AsciiByte | datapoint/StringDataPoint.cpp:173-189 | An ASCII byte at a scan position is kept. |
| Utf8.LegalSequence | application/win32/ConvertUTF.c:290-324 | The verdict on one sequence is that of section 4 of RFC 3629, plus the surrogates and plus 0xF4 with an ASCII second byte. |
| Utf8.WellFormedStep | datapoint/StringDataPoint.cpp:171-190 | A string is well-formed exactly when the character its lead byte announces and the rest are. |
| Utf8.CheckExactly | datapoint/StringDataPoint.cpp:163-194 | A string is well-formed UTF-8 if and only if the scan accepts it and met neither of these two families. |
| Utf8.CorrectsCharacters | datapoint/StringDataPoint.cpp:178-188 | Correction keeps every legal character it meets and overwrites every other one. |
| Utf8.AcceptedUntouched | datapoint/StringDataPoint.cpp:178-188 | An accepted string is not changed at all. |
| Utf8.KeepsLengthExactly | datapoint/StringDataPoint.cpp:163-194 | With a replacement other than NUL the string keeps its length if and only if it does not end in an illegal character that reaches past its end. |
| Utf8.SecondPassAccepts | datapoint/StringDataPoint.cpp:163-194 | With an ASCII replacement and no such end a second pass accepts the corrected string, whose surrogates and loose 0xF4 are those of the original. |
| Utf8.CorrectionWorks | datapoint/StringDataPoint.cpp:163-194 | Both together, for a whole buffer. |
| Utf8.CorrectedIsWellFormed | datapoint/StringDataPoint.cpp:163-194 | With an ASCII replacement other than NUL, and no such end, the corrected string is well-formed if and only if the original had no surrogate and no loose 0xF4. |
| Utf8.SurrogateAccepted | application/win32/ConvertUTF.c:290-310 | A buffer with a surrogate that is accepted and not well-formed. |
| Utf8.TerminatorLost | datapoint/StringDataPoint.cpp:183-186 | A buffer whose correction runs over its terminator, with any replacement other than NUL. |
| Utf8.ValidateStringUTF8 | datapoint/StringDataPoint.cpp:163-194 | Returns the verdict on the original string, and leaves the buffer corrected or untouched, although it corrects while it scans. |
| Utf8.ValidateChar | datapoint/StringDataPoint.cpp:173-188 | One turn: length from the lead byte, verdict, and overwriting. |
| Utf8.Overwrite | datapoint/StringDataPoint.cpp:183-186 | The inner loop overwrites exactly the bytes of the character. |
| MinMaxPoints.SettersKeepRange | datapoint/MinMaxDataPoint.h:103-207 | Setting a value brings a point into range exactly when its limits are ordered; moving a limit keeps an in-range point in range exactly when they stay ordered. |
| MinMaxPoints.LimitedIsNearest | datapoint/MinMaxDataPoint.h:400-433 | Between ordered limits the value set is the nearest one to the value asked for: itself, or the limit it lies beyond; with exchanged limits always the maximum. |
| MinMaxPoints.PointLayout | datapoint/I32DataPoint.h:137-151 | Where maximum, minimum, value and quantity stand in a record. |
| MinMaxPoints.RestoreFromNothing | datapoint/I32DataPoint.h:156-170 | From an exhausted record a point keeps its limits and quantity, and its value is limited by them. |
| MinMaxPoints.SettersInLoadOrder | datapoint/I32DataPoint.h:163-168 | From any prior state the setters in load order leave the given limits and the limited value. |
| MinMaxPoints.RestoreAll | datapoint/I32DataPoint.h:137-170 | Loading a full record into a point in any state restores maximum, minimum and quantity always, and the value exactly when it was in range or at the maximum; one below the limits becomes the minimum, one above the maximum; the record is consumed to the byte. |
| MinMaxPoints.RestoreValue | datapoint/I32DataPoint.h:160-162 | A value loaded alone is kept between the limits of the point, becomes the minimum below them and the maximum above. |
| MinMaxPoints.PercentExactlyWhen | datapoint/NumberDataPoint.h:104-119 | For an in-range point the percentage is the true one exactly when max - min fits in an int, or the value is at the minimum. |
| MinMaxPoints.ValueOfPercentGrows | datapoint/NumberDataPoint.h:125-132 | The value asked for by a percentage grows from the minimum on by the 32-bit distance of the limits per hundred percent. |
| MinMaxPoints.Truncate | datapoint/NumberDataPoint.h:131 | Conversion to an integer cuts toward zero. |
| MinMaxPoints.PercentReadsBack | datapoint/NumberDataPoint.h:104-132 | In exact arithmetic a percentage in [0, 100] sets a value in range that reads back within 100/(max-min). |
| MinMaxPoints.SetPercentAfterGet | datapoint/NumberDataPoint.h:104-132 | Setting the percentage just read leaves an in-range value as it is. |
| MinMaxPoints.I32DataPoint.SetValuePure | datapoint/MinMaxDataPoint.h:400-433 | A value below ordered limits becomes the minimum, one above the maximum, one between stays; with exchanged limits it is the maximum; returns and notifies exactly a change. |
| MinMaxPoints.I32DataPoint.SetValue | datapoint/MinMaxDataPoint.h:103-118 | The same, makes the quality available, and notifies once exactly when either changed. |
| MinMaxPoints.I32DataPoint.SetValueUnLtd | datapoint/MinMaxDataPoint.h:222-243 | Sets the value without looking at the limits. |
| MinMaxPoints.I32DataPoint.SetMinValue | datapoint/MinMaxDataPoint.h:139-162 | Moves the minimum and raises the value to it only when the minimum changes. |
| MinMaxPoints.I32DataPoint.SetMaxValue | datapoint/MinMaxDataPoint.h:183-207 | Moves the maximum and lowers the value to it only when the maximum changes. |
| MinMaxPoints.I32DataPoint.CopyValues | datapoint/MinMaxDataPoint.h:249-313 | An exact copy of all six attributes, in range or not; notifies exactly on a change. |
| MinMaxPoints.I32DataPoint.GetValueAsPercent | datapoint/NumberDataPoint.h:104-119 | The percentage over 32-bit differences, 0 without a positive distance. |
| MinMaxPoints.I32DataPoint.SetValueAsPercent | datapoint/NumberDataPoint.h:125-132 | Sets the scaled, truncated and limited value; notifies once exactly on a change. |
| MinMaxPoints.I32DataPoint.SaveToFlash | datapoint/I32DataPoint.h:137-151 | Appends the bytes of the chosen record when there is room, and ends in an error when not. |
| MinMaxPoints.I32DataPoint.LoadFromFlash | datapoint/I32DataPoint.h:156-170 | On any bytes at all: each value is read with the present one as default and passed through its setter; observers hear once of every setter that changes the point. |

## Left out

- Vectors.VectorDataPoint.GetValues: the signed source and destination indices must stay non-negative (the predicate Readable); otherwise the source reads in front of the vector, or its destination index overflows.
- Utf8.ValidateStringUTF8: every byte the scan looks at must lie in the buffer, which holds when at least two bytes follow the terminator; the source reads past it otherwise.
- HeapTraces.HeapTrace.mpc_malloc: an endless error loop of the source is a result that says stuck; memory handed out by the system allocator is taken to be unused.
- Schedulers.LowPrioPeriodicTask: the endless loop is modelled by all its finite prefixes; the clock readings are its input.
- MinMaxPoints.I32DataPoint.SetValueAsPercent: the conversion to an integer must not overflow, which C leaves undefined.
- Alarms.AlarmDataPoint.SetErrorPresent: an alarm configuration must be attached, as for switching the point active; the source dereferences it without asking.
- NotifyObserversE, the observer lists and re-entrant notifications: NotifyObservers is a counter.
- Semaphores and regions: every operation is atomic.
- FatalErrorOccured returns without effect, as in release builds (factory/Factory.cpp:334-340).
- Signed overflow of counters and sums is modelled as two's complement wrap-around; the fields of the clock and the calendar sums in between are unbounded.
- A run of a trigger is driven by ticks only; setting the clock during the run and the real-time clock that refreshes it (util/Clock.cpp) are not part of the run lemmas, though RunSubTask is stated for any clock.
- MpcTime comparison operators, copying into other time objects, and the current-time constructor.
- FlashBlock headers, subject tables, checksums, strings and floating point values; WriteU16 and WriteU32 are the same member as WriteU8 with another width; processor byte order is taken as little-endian.
- Whether a whole record marks a block modified: stated per value written only.
- The other vector and number data points (U8, U16, U32, I16, Bool, Float) repeat the ones modelled.
- Machine floating point: percentages are exact reals.
- Attaching and copying alarm configurations, alarm limits and values, erroneous units, and the PC simulation of alarms.
- Guard bytes, the rounding of sizes under MPC_BLOCK_ALLOC_SIZE, dump_leaks, file and line bookkeeping of the heap trace, and the wrap-around of its byte total.
- Display, GPIO, communication tables and the boot sequence.
