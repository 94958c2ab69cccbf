# LibSourcey: a verified model of its algorithmic cores

LibSourcey is a C++ library of networking and media utilities. Most of it forwards to other libraries; this
project models the parts whose behaviour is its own, and proves what they are for. Code that updates state is
modelled by classes, arrays and loops, each proved against a specification function; the main results are lemmas
about those functions, for all inputs, all runs or all reachable states.

| file | what it models | main results |
|---|---|---|
| Calendar.dfy, DateTime.dfy | day numbers, the broken-down date and time, their computation from a Julian day and its repair | `Calendar.FromDayNumberIsDate`, `DateTimes.FieldsOfTicks`, `DateTimes.FieldsThroughTicks` |
| Powers.dfy, Numerals.dfy, DateText.dfy, DateWords.dfy, IsoDates.dfy, DateHeader.dfy | format-driven printing and parsing of dates, and the Date header made of both | `DateText.StyleRoundTrip`, `IsoDates.FractionDetectedAndRead`, `DateHeader.HeaderRoundTrip` |
| Runs.dfy, Base64.dfy | the resumable base64 codec | `Base64.RoundTrip`, `Base64.EncodeMeetsSpecification` |
| CArithmetic.dfy, Random.dfy | truncating division, `goodRand`, the additive feedback generator | `Random.GoodRandPermutes`, `Random.PeriodIs127`, `Random.FirstNumbers` |
| BitBuffer.dfy, WebSocket.dfy | byte readers and writers, WebSocket frames | `WebSocket.ReadWritten`, `WebSocket.ReceiveCut`, `WebSocket.ReadDecides` |
| StunAttributes.dfy, StunMessage.dfy | STUN attributes and messages | `StunMessage.RestoredIff`, `StunMessage.IntegrityVerifies` |
| TaskRunner.dfy | the rotating task queue, interleaved with other threads | `TaskRunners.BoundedWaiting`, `TaskRunners.TidyIff` |
| StreamStates.dfy | state delivery under concurrency | `StreamStates.StatesReachAdapters`, `StreamStates.QueuedAsSetIff` |
| Chains.dfy, PacketStream.dfy | the delegate chain and the stream's operations on it | `Chains.OnlyTheChainIff`, `PacketStreams.PacketStream.AttachInBetween` |
| DailyTrigger.dfy | the search for the next allowed weekday | `DailyTriggers.SearchIff`, `DailyTriggers.DailyTrigger.Update` |
| Cleaner.dfy | deferred deletion | `Cleaners.DeletedIff`, `Cleaners.FinalizationEnds` |
| HeaderAssembly.dfy | HTTP header assembly from fragments | `HeaderAssembly.AssembledIff` |
| UrlCodec.dfy, UrlTexts.dfy | URL escaping, form text, query parameters | `UrlCodec.FormRoundTrip`, `UrlCodec.FormEntriesIff`, `UrlTexts.PathNumbered` |

`dafny verify dfyconfig.toml` checks everything.

## Conventions

Clock readings, hash functions, the uninitialised flag of the header parser and the order in which threads take
their steps are parameters or arbitrary choices. Machine integers are written out where their width matters.
Where a property the design promises fails on some inputs, the lemma states the exact condition under which it
holds. The conditions found this way:

- Fields set on a `DateTime` come back from its tick count exactly if the instant is not before 15 October 1582 or
  is a midnight; before that day the parts of the tick count are negative (`DateTimes.FieldsThroughTicks`), and the
  date is a day early except in the hour before a midnight (`DateTimes.FieldsOfTicks`).
- Carrying the fields keeps the instant exactly if no carry overflows sixteen bits (`DateTimes.NormalizedIff`).
- A zone offset survives its text form exactly if it is a whole number of minutes below a hundred hours, or the
  value that stands for none (`DateText.ZoneRoundTrip`); a date with a comma behind the weekday survives the
  auto-detecting parser exactly from year 1000 on, or from 1969 to 2068 if the year has two digits
  (`DateText.StyleRoundTrip`).
- A Date header gives its instant back exactly from year 1000 to 9999 and, before 15 October 1582, only at midnights
  and noons, because the signs of the parts are lost (`DateHeader.HeaderRoundTrip`).
- The zone of a Date header is read and dropped: the header gives the instant it names exactly if its zone is
  Greenwich's (`DateHeader.ZoneDropped`).
- The weekday of an instant is right exactly if the error of its Julian day, a double, does not take it over a midnight,
  and the Julian day is not negative (`DateTimes.WeekdayIff`); in the last microseconds of a day it is the next day's
  (`DateTimes.LateReading`). A daily trigger therefore finds the first allowed day, whatever is excluded, exactly if that
  happens on none of the seven days from its start (`DailyTriggers.SearchIff`, `DailyTriggers.SeesRightIff`); an
  update ten microseconds before midnight can pass over an allowed day (`DailyTriggers.LateUpdate`).
- The seed table holds the powers of the multiplier exactly if the seed, read as an `int32_t`, is not a multiple of
  2^31 - 1 (`Random.SeedTableIsPowers`).
- A WebSocket frame is read back exactly if its payload is shorter than 65536 bytes: the 64-bit length is cut to
  16 bits before it is written (`WebSocket.ReadWritten`). Reading one unmasks past the end of the buffer exactly if it is
  masked, its length is at most the limit and it ends behind the buffer (`WebSocket.ReadFrame`).
- A STUN message is restored exactly if its method is defined, its padded size fits sixteen bits and each
  attribute is of a type and size that `StunAttributes.IsSupported` lists and is written with its padding
  (`StunMessage.RestoredIff`). Of any other attribute only the header is passed, so its value is taken for the next one
  (`StunMessage.StepIff`).
- A message integrity covers what section 15.4 of RFC 5389 says exactly if no attribute follows it: the code hashes the
  length of the whole message (`StunMessage.StandardInputIff`).
- A destroyed task is deleted in its turn exactly if it was not cancelled before (`TaskRunners.DeletedInTurnIff`).
  No task is queued though deleted, or deleted twice, exactly if none is added or dropped that was there already
  (`TaskRunners.TidyIff`). That fails when two calls of `add` overlap (`TaskRunners.DoubleAddDangles`), when `destroy`
  comes between the look and the push of one `add` (`TaskRunners.DroppedThenQueued`), and when `destroy` looks once the
  loop has taken the task out or deleted it (`TaskRunners.DeletedTwice`, `TaskRunners.DestroyedAgain`).
- The state of a stream is assigned without a lock and queued later: states are queued as they were set exactly if none
  is set while a different one has yet to be queued (`StreamStates.QueuedAsSetIff`, `StreamStates.RacingStates`).
- A packet can only take the chain of processors exactly if the signals held nothing of a stream before the setup
  (`PacketStreams.PacketStream.Start`). Since stopping leaves the links in place, that fails after a processor was
  attached between stop and start, unless it comes first: the one before it then emits into both
  (`PacketStreams.PacketStream.AttachInBetween`, `Chains.EmitsTwice`).
- Starting and closing restores a signal exactly if none of the links was there before; a processor detached in
  between leaves links on its own signal and on that of the one before it, and on no other
  (`PacketStreams.PacketStream.StartAndClose`, `PacketStreams.PacketStream.DetachInBetween`).
- Headers are assembled right exactly if no name was left over; since `reset` leaves the last header in place, the
  next message on the same parser hands it on again (`HeaderAssembly.AssembledIff`,
  `HeaderAssembly.NextMessageRepeatsLast`).
- Every form field comes through exactly if each has a name and a value (`UrlCodec.FormRoundTrip`), and has an entry of
  its own exactly if their names differ, case ignored (`UrlCodec.FormEntriesIff`); an escape
  written with lower-case digits is decoded right only in the cases `UrlCodec.UnescapeIff` lists.

## Model

| member | source | states |
|---|---|---|
| CArithmetic.DivTwice | src/base/include/scy/datetime.h:1506-1563 | dividing in two steps is dividing by the product, as the parts of a time span rely on |
| Calendar.DayNumberNext | src/base/src/datetime.cpp:324-342 | the day number grows by exactly one from any date to the calendar's next day, across month ends, leap days, centuries and eras |
| Calendar.FromDayNumberInverts | src/base/src/datetime.cpp:372-387 | the date computed from a date's day number is that date, for every date |
| Calendar.FromDayNumberIsDate | src/base/src/datetime.cpp:372-387 | every day number, from whatever side of year 0, is turned into the date the calendar counts to, forwards or backwards |
| Calendar.WeekdayNext | src/base/src/datetime.cpp:210-213 | the weekday advances by one, modulo seven, from each day to the next, and 15 October 1582 is a Friday |
| Calendar.WeekNext | src/base/src/datetime.cpp:252-267 | 4 January is in week 1, and within a year the number grows by one exactly on the first day of each week |
| DateTimes.SpanTimeIsTime | src/base/include/scy/datetime.h:1512-1563 | for a span from 0 on, the extracted parts are in range and add up to the span modulo a day |
| DateTimes.SpanTimeOfNegative | src/base/include/scy/datetime.h:1512-1563 | for a negative span, all parts are zero or negative |
| DateTimes.GregorianOfReal | src/base/src/datetime.cpp:372-387 | the floor arithmetic on reals, in every intermediate value, gives the date of the integer computation |
| DateTimes.TimeOfFraction | src/base/src/datetime.cpp:388-401 | taking a fraction of a day apart step by step, rounding only the microseconds, gives the nearest microsecond |
| DateTimes.DateTime.CheckLimit | src/base/src/datetime.cpp:345-351 | whole limits move from the lower field to the higher one, which wraps at sixteen bits |
| DateTimes.NormalizedIff | src/base/src/datetime.cpp:354-369 | for any fields, the specified result has the same instant exactly if no carry overflows, and then is in range exactly if no field is negative with its carries and the days fit two months |
| DateTimes.DateTime.Normalize | src/base/src/datetime.cpp:354-369 | the fields become the result that lemma is about, with what it says of the instant and the ranges |
| DateTimes.DateTime.ComputeGregorian | src/base/src/datetime.cpp:372-412 | the fields are the microsecond nearest to the given Julian day, on the right calendar date |
| DateTimes.DateTime.ComputeDaytime | src/base/src/datetime.cpp:415-450 | the time of day becomes that of the tick count and the date moves by a day exactly when the two disagree across midnight |
| DateTimes.RepairIsExact | src/base/src/datetime.cpp:415-450 | if the Julian day is less than an hour off, the repaired date and the exact time name the exact microsecond |
| DateTimes.FieldsOfTicks | src/base/src/datetime.cpp:415-450 | with the Julian day exact, the fields of any tick count name its microsecond exactly if it is not before the epoch or lies in the hour before a midnight, and otherwise one a day earlier |
| DateTimes.FieldsOfTicksNear | src/base/src/datetime.cpp:415-450 | with any Julian day less than an hour off, they do exactly if the tick count is not before the epoch, or lies in the hour before a midnight and the Julian day falls no more than an hour short of that midnight |
| DateTimes.DateTime.Recompute | src/base/src/datetime.cpp:64-69 | the time of day is made of the parts of the tick count and the date is that of the Julian day, repaired; from tick 0 on both are exact with any Julian day less than an hour off |
| DateTimes.DateTime.FromTicks | src/base/src/datetime.cpp:150-156 | the fields belong to the tick count, of either sign: exact from tick 0 on, and before it exact or a day early as `FieldsOfTicks` says; midnights keep their date |
| DateTimes.ToUtcTimeIsExact | src/base/src/datetime.cpp:42-52 | the Julian day of a date is its day number, and converting it to ticks loses nothing |
| DateTimes.DateTime.Assign | src/base/src/datetime.cpp:167-193 | the fields are those given and the tick count is that of the date and time |
| DateTimes.DateTime.Add | src/base/src/datetime.cpp:294-300 | the tick count moves by the span, forwards or backwards, and the fields belong to the new one |
| DateTimes.FieldsThroughTicks | src/base/src/datetime.cpp:150-193 | fields turned into ticks and back are the same exactly if the instant is not before the epoch or is a midnight |
| DateTimes.WeekdayOfDate | src/base/src/datetime.cpp:210-213 | the weekday of a tick count is the calendar's weekday whatever the time of day |
| DateTimes.WeekdayIff | src/base/src/datetime.cpp:210-213 | the weekday computed from a Julian day that is off by an error is that of the tick count exactly if the error does not take it over a midnight, and the Julian day is not negative or the day is a Sunday |
| DateTimes.LateReading | src/base/src/datetime.cpp:42-46 | ten microseconds before midnight of Sunday, 8 November 2020, the nearest double makes it Monday |
| DateTimes.DateTime.DayOfWeek | src/base/src/datetime.cpp:210-213 | for any tick count and any error of the Julian day, the weekday those lemmas are about |
| DateTimes.DateTime.DayOfYear | src/base/src/datetime.cpp:216-223 | the loop over months gives the difference of day numbers within the year |
| DateTimes.DateTime.FirstInJanuary | src/base/src/datetime.cpp:252-259 | the loop ends on the first day of January with the weekday asked for |
| DateTimes.DateTime.Week | src/base/src/datetime.cpp:252-267 | the week is the one `Calendar.WeekNext` characterises, for every first day of the week |
| Numerals.ReadsBack | src/base/src/numeric.cpp:51-58 | reading as many digits as were printed, as a number or as a fraction, gives the number back and leaves the rest |
| Numerals.FractionFills | src/base/src/datetime.cpp:1186-1195 | up to n digits before something else are read as their value times 10 to the number of digits missing |
| Numerals.ReadsSize | src/base/src/numeric.cpp:51-58 | of a number printed with a sign, the digits that follow the sign are read back as its size |
| DateText.Append | src/base/src/datetime.cpp:971-1068 | the loop over the format appends the specified text, for any fields, negative parts included, and any weekday that `dayOfWeek` computes, which only a format that shows it must not find negative |
| DateText.Parse | src/base/src/datetime.cpp:1198-1326 | the loop over format and text gives the specified date, time and zone, or the error |
| DateText.TryParse | src/base/src/datetime.cpp:1369-1397 | the chain of tests and searches chooses the format that `DateText.DetectedFormat` names, and the text is read in it; what comes of it is said by the lemmas on each format and on dates that end early |
| DateText.StyleRoundTrip | src/base/src/datetime.cpp:1369-1380 | a valid date printed in any of the five formats with a comma is found out and comes back to the second exactly if its year is one that returns: from 1000 on in four digits, from 1969 to 2068 in two |
| DateText.Iso8601Detected | src/base/src/datetime.cpp:1384-1394 | a valid date printed in the ISO 8601 format is found out and comes back to the second |
| DateText.Iso8601FracDetected | src/base/src/datetime.cpp:1388-1391 | printed with fractions, it is found out and comes back to the microsecond |
| DateText.SortableDetected | src/base/src/datetime.cpp:1385-1387 | printed in the sortable format, it is found out by the blank and comes back to the second |
| DateText.AsctimeDetected | src/base/src/datetime.cpp:1378-1380 | printed in the format of asctime, it is found out by the blank behind the weekday and comes back to the second |
| IsoDates.FractionReads | src/base/src/datetime.cpp:1282-1306 | the digits of a fraction, however many, are read as microseconds: the first six count, missing ones as zeros |
| IsoDates.FractionDetectedAndRead | src/base/src/datetime.cpp:1369-1397 | an ISO 8601 text with any number of digits behind its seconds, after a point or a comma, is found out and read as the value of its first six digits in microseconds |
| IsoDates.DateAloneRead | src/base/src/datetime.cpp:1369-1397 | a text of ten characters without a time is midnight of its date |
| IsoDates.MonthAloneRead | src/base/src/datetime.cpp:1317-1322 | a month without a day is its first day |
| IsoDates.YearAloneRead | src/base/src/datetime.cpp:1317-1322 | a year alone is its first day |
| DateText.ReadPiece | src/base/src/datetime.cpp:1219-1308 | each letter takes the specified part of the text, through the loops of the parser's macros |
| DateText.ReadFraction | src/base/src/datetime.cpp:1186-1195 | the two loops read what `Numerals.FractionFills` is about |
| DateText.ReadTZD | src/base/src/datetime.cpp:1400-1477 | a name of up to four letters and a signed offset are read as specified |
| DateText.ReadMonth | src/base/src/datetime.cpp:1480-1504 | the loop finds the month that `DateWords.MonthOfIff` characterises, or an error |
| DateWords.MonthOfIff | src/base/src/datetime.cpp:1480-1504 | letters are read as a month exactly if they are three or more and its name begins with them, in any case |
| DateWords.ZoneNameRead | src/base/src/datetime.cpp:1400-1477 | every zone of the table is read as its own offset |
| DateWords.Rfc822Zones | src/base/src/datetime.cpp:1410-1443 | the zones of RFC 822 have the offsets that standard gives them |
| DateWords.SummerTimes | src/base/src/datetime.cpp:1410-1443 | each daylight saving time is an hour ahead of its standard time |
| DateWords.FourLettersCount | src/base/src/datetime.cpp:1446-1459 | of a longer name the first four letters count and the others are left |
| DateWords.LetterRoundTrip | src/base/src/datetime.cpp:1219-1308 | what a letter for a number prints it reads back, of the milliseconds the hundreds if it prints one digit |
| DateWords.FractionLetter | src/base/src/datetime.cpp:1301-1306 | the six digits of a fraction are read back as milliseconds and microseconds |
| DateWords.NameRoundTrip | src/base/src/datetime.cpp:1220-1228 | a month's full name is read back, and a weekday's is passed over |
| DateText.ZoneRoundTrip | src/base/src/datetime.cpp:1122-1155 | a printed zone is read as itself exactly if it is whole minutes below a hundred hours or stands for none |
| DateText.Iso8601RoundTrip | src/base/src/datetime.cpp:938-938 | every valid date and time comes back to the second in the ISO 8601 format, with its zone under that exact condition |
| DateText.Iso8601FracRoundTrip | src/base/src/datetime.cpp:939-939 | every valid date and time comes back to the microsecond in the format with fractions, with its zone under that exact condition |
| DateHeader.HeaderRoundTrip | src/http/src/response.cpp:87-98 | for every tick count and whatever weekday is printed, the Date header read back gives the instant to the second exactly if the year is from 1000 to 9999 and the instant is not before the epoch or is, to the second, a midnight or a noon |
| DateHeader.HeaderOfLaterInstant | src/http/src/response.cpp:87-98 | from tick 0 to the end of year 9999 it always does |
| DateWords.HttpText | src/base/src/datetime.cpp:971-1068 | the text of the HTTP format is the one RFC 7231 prescribes, name by name and digit by digit, for every date |
| DateWords.HttpSample | src/base/src/datetime.cpp:942-942 | the sample date of that standard is printed as it says |
| DateWords.AsctimeText | src/base/src/datetime.cpp:971-1068 | that of the asctime format has a blank in front of a day of one digit |
| DateHeader.ZoneDropped | src/http/src/response.cpp:93-98 | of a header in any printable zone the date, the time and the zone are read, but the instant given is the one it names exactly if the zone is Greenwich's |
| DateHeader.SetDate | src/http/src/response.cpp:87-90 | the header is the text those lemmas are about, with the weekday computed |
| DateHeader.GetDate | src/http/src/response.cpp:93-98 | the instant is the one those lemmas are about, or the text is refused |
| DateText.TwoDigitYearIff | src/base/src/datetime.cpp:1243-1250 | a year printed with two digits is read back exactly from 1969 to 2068 |
| DateText.AmPmRoundTrip | src/base/src/datetime.cpp:1533-1559 | an hour printed on the twelve-hour clock with its half of the day is read back |
| Base64.DecodeEncodeValue | src/base/src/base64.cpp:38-44 | the decoding table inverts the encoding table on all 64 values |
| Base64.EncodeValueIsAlphabet | src/base/src/base64.cpp:38-44 | the characters written are those of RFC 4648, in its order |
| Base64.DecodeValueIff | src/base/src/base64.cpp:135-148 | a character counts exactly if it is one of them, and then for its place |
| Base64.DecodeSkips | src/base/src/base64.cpp:158-215 | from any state, a text is decoded as if the characters outside the alphabet were not there |
| Base64.EncodeFragment | src/base/src/base64.cpp:57-98 | one turn of the coroutine, from label to label, is one step of the specification |
| Base64.EncodeBlock | src/base/src/base64.cpp:47-103 | a call writes the text and leaves the state of running the step over its input from the saved state |
| Base64.EncodeBlockEnd | src/base/src/base64.cpp:106-127 | the final call writes the pending character, the padding and the terminator |
| Base64.DecodeBlock | src/base/src/base64.cpp:158-215 | a call writes the bytes and leaves the state of running the step over its text, ignoring other characters |
| Runs.RunConcat | src/base/src/base64.cpp:47-103 | feeding two pieces leaves the state and emits the output of feeding them joined |
| Runs.RunChunksIsRun | src/base/src/base64.cpp:47-103 | any split into calls gives the state and the output of a single call |
| Base64.RoundTrip | src/base/src/base64.cpp:47-215 | decoding gives the original bytes, for any data, any split of data and text over calls, any line length and terminator |
| Base64.EncodeMeetsSpecification | src/base/src/base64.cpp:47-127 | the output is the groups of RFC 4648 with padding, and a line feed after every line length / 4 complete groups |
| Random.GoodRandIsResidue | src/base/src/random.cpp:158-171 | without leaving 32 bits, the result is 16807 x modulo 2^31 - 1 for every nonzero x |
| Random.GoodRandRange | src/base/src/random.cpp:158-171 | zero stands for 123459876, and no result reaches 2^31 - 1 |
| Random.GoodRandPermutes | src/base/src/random.cpp:158-171 | the function is a permutation of 1 to 2^31 - 2 |
| Random.SeedTableIsPowers | src/base/src/random.cpp:184-201 | the table holds the powers of 16807 times the seed exactly if the seed is not a multiple of 2^31 - 1 |
| Random.RecurrenceIsTerm | src/base/src/random.cpp:311-327 | any sequence that satisfies the recurrence is the one determined by its first terms |
| Random.LowBitsAreShiftRegister | src/base/src/random.cpp:311-327 | the low bits of the words form the linear feedback shift register of the trinomial |
| Random.Folded | src/base/src/random.cpp:311-327 | they satisfy the trinomial with all distances multiplied by any power of two |
| Random.PeriodIs127 | src/base/src/random.cpp:59-63 | for degree seven, a window of low bits that is not zero comes again after 127 = 2^7 - 1 steps and not before |
| Random.AroundShifts | src/base/src/random.cpp:328-355 | overwriting the cell under the pointer and advancing it shifts the window on the sequence by one |
| Random.TableStep | src/base/src/random.cpp:328-355 | one step on the circular table is one more term of the unbounded recurrence |
| Random.PointersFollow | src/base/src/random.cpp:328-355 | the pointers stay inside the table and apart by the separation, and never both wrap in one call |
| Random.Random.Next | src/base/src/random.cpp:328-355 | the table stays a window on the recurrence and the number is its newest term without the lowest bit |
| Random.Random.Seed | src/base/src/random.cpp:184-209 | the recurrence starts from the seed table and the discarded draws advance it by ten degrees; without a table, the seed is taken through `goodRand` fifty times |
| Random.Random.constructor | src/base/src/random.cpp:272-308 | type, degree and separation follow the buffer size, and the generator starts seeded |
| Random.Draw | src/base/src/random.cpp:184-355 | after seeding, the k-th number drawn is term 11 deg + k of the recurrence, halved |
| Random.FirstNumbers | src/base/src/random.cpp:131-355 | the k-th number of a new generator, for each range of buffer sizes, in terms of the seed, the degree and the separation of its trinomial, or of `goodRand` alone |
| BitBuffer.DecodeEncode | src/base/src/buffer.cpp:108-147 | a big-endian number read back is the number written, when it fits its width |
| BitBuffer.EncodeAt | src/base/src/buffer.cpp:477-518 | byte i of a number is the digit of its place in base 256, highest place first |
| BitBuffer.XorIsBitwise | src/http/src/websocket.cpp:576-582 | a bit of the exclusive or is set exactly if the two bits differ |
| BitBuffer.BitReader.Get | src/base/src/buffer.cpp:150-179 | the bytes at the position are returned and passed, or nothing happens at all |
| BitBuffer.BitReader.GetNumber | src/base/src/buffer.cpp:108-147 | the number at the position is returned and passed, or nothing happens |
| BitBuffer.BitReader.Seek | src/base/src/buffer.cpp:68-74 | moves to a position up to the limit, or fails unchanged |
| BitBuffer.BitReader.Skip | src/base/src/buffer.cpp:77-83 | moves on, checking the distance and not the new position against the limit |
| BitBuffer.BitWriter.Put | src/base/src/buffer.cpp:521-534 | the bytes are appended if they fit, else nothing changes |
| BitBuffer.BitWriter.Update | src/base/src/buffer.cpp:586-593 | a range is overwritten exactly if its end is no more than the room left, so never in a full buffer |
| BitBuffer.DynamicBitWriter.Put | src/base/src/buffer.cpp:622-636 | the bytes are inserted behind those written, and what the buffer held stays around them |
| WebSocket.MaskedTwice | src/http/src/websocket.cpp:576-582 | masking twice gives the payload back |
| WebSocket.FrameLayout | src/http/src/websocket.cpp:454-504 | byte by byte, what a frame looks like on the wire, for all three forms of the length: head, mask, and each payload byte combined with a mask byte in turn |
| WebSocket.WriteFrame | src/http/src/websocket.cpp:454-504 | the frame's bytes, those of `WebSocket.FrameLayout`, are written exactly if they fit the buffer |
| WebSocket.ReadFrame | src/http/src/websocket.cpp:507-591 | the frame at the position is read as specified, its payload unmasked in place, and everything behind it untouched; the unmasking loop runs past the buffer exactly on a masked frame of a length up to the limit that ends behind it |
| WebSocket.Unmask | src/http/src/websocket.cpp:576-582 | exactly the payload's range is unmasked, and what is before and behind it stays |
| WebSocket.OnSocketRecv | src/http/src/websocket.cpp:220-283 | on any buffer, the receive loop ends and emits, frame by frame, what `WebSocket.ReadDecides` and the lemmas on joined and cut frames say |
| WebSocket.ReadDecides | src/http/src/websocket.cpp:507-591 | from the bytes alone: when a frame is read at all, of what length, and which mask byte each byte of its payload is combined with |
| WebSocket.OneFrameReceived | src/http/src/websocket.cpp:220-283 | of a buffer with one short masked frame, byte i of what is emitted is data byte i combined with mask byte i modulo 4 |
| WebSocket.HelloReceived | src/http/src/websocket.cpp:576-582 | the masked example of RFC 6455 is emitted as the text it stands for |
| WebSocket.ReadWritten | src/http/src/websocket.cpp:454-591 | a written frame is read back, with everything behind it left for the next, exactly if its payload is shorter than 65536 bytes |
| WebSocket.ReceiveJoined | src/http/src/websocket.cpp:234-283 | joined frames, masked or not, are emitted without the empty ones, in order, and the loop ends at the end of the buffer |
| WebSocket.CutFrameBroken | src/http/src/websocket.cpp:507-591 | a written frame cut anywhere inside is refused |
| WebSocket.ReceiveCut | src/http/src/websocket.cpp:234-283 | of a buffer that ends inside a frame, the complete frames before it are emitted, in order, and then the loop fails |
| StunAttributes.HashInput | src/stun/src/attributes.cpp:777-787 | the update of the length is refused in the full buffer, so the hash input is the message before the attribute |
| StunAttributes.ValueLayout | src/stun/src/attributes.cpp:408-1045 | byte by byte, what each class writes after its header, padding included |
| StunAttributes.AddressLayout | src/stun/src/attributes.cpp:408-434 | port and address of every address attribute are masked with the bytes of the magic cookie |
| StunAttributes.SampleAddress | src/stun/src/attributes.cpp:408-434 | the mapped address of the sample response of RFC 5769 is written as it says |
| StunAttributes.CreatedIff | src/stun/src/attributes.cpp:159-315 | the types and sizes of which `create` makes an object, listed size by size; the type is kept but for a channel number |
| StunAttributes.RecreatedIff | src/stun/src/attributes.cpp:159-315 | the attributes that can be told apart from their bytes, listed class by class |
| StunAttributes.WriteValue | src/stun/src/attributes.cpp:408-434 | every attribute class writes its specified bytes and padding |
| StunAttributes.ReadAttribute | src/stun/src/attributes.cpp:366-405 | every attribute class reads the specified attribute and stops where specified, or fails |
| StunAttributes.ReadErrorValue | src/stun/src/attributes.cpp:943-956 | an error code with any of its upper bits set is refused, else class, number and reason are read |
| StunAttributes.ReadStringValue | src/stun/src/attributes.cpp:673-681 | the bytes and the padding are read |
| StunAttributes.ReadIntegrityValue | src/stun/src/attributes.cpp:767-792 | the digest and the message before the attribute are kept |
| StunAttributes.ReadWritten | src/stun/src/attributes.cpp:159-315 | an attribute that can be told apart is read back from its bytes wherever they stand in a message |
| StunAttributes.ReadGivesRecreated | src/stun/src/attributes.cpp:159-315 | nothing but the attributes of that list can come out of reading, whatever the bytes |
| StunMessage.TotalAdds | src/stun/src/message.cpp:95-103 | each attribute adds its padded size and header |
| StunMessage.HeaderLayout | src/stun/src/message.cpp:209-219 | byte by byte, the header that is written, magic cookie included |
| StunMessage.AttributesLength | src/stun/src/message.cpp:209-228 | the bytes behind the header are the sum that `add` keeps, less three for each eight-bit attribute |
| StunMessage.ReadEncoded | src/stun/src/message.cpp:174-196 | the reader stays in step with the writer attribute by attribute, for any length field |
| StunMessage.RoundTrip | src/stun/src/message.cpp:120-228 | class, method, transaction id and all attributes come back in order and exactly the message is consumed |
| StunMessage.RestoredIff | src/stun/src/message.cpp:95-228 | that happens exactly if the method is defined, the padded sizes fit sixteen bits and every attribute is of a listed type and size and not an eight-bit one |
| StunMessage.IntegrityVerifies | src/stun/src/attributes.cpp:746-889 | an integrity attribute verifies under the key it was written with, whatever surrounds it, over the bytes before it |
| StunMessage.StandardInputIff | src/stun/src/attributes.cpp:828-851 | the input of the hash is the one section 15.4 of RFC 5389 describes exactly if no attribute follows |
| StunMessage.AfterSuccess | src/stun/src/message.cpp:120-206 | after a read that succeeds, the message holds what was read, whatever it held before |
| StunMessage.StepIff | src/stun/src/message.cpp:177-196 | from the bytes alone: a type or size that is not accepted yields nothing and its value is taken for the next attribute; an accepted one yields one attribute of its type, or fails |
| StunMessage.StuckIff | src/stun/src/attributes.cpp:366-1035 | an accepted attribute fails exactly if the message ends inside the bytes its class reads, or if an error has upper bits set |
| StunMessage.StepGoesOn | src/stun/src/attributes.cpp:366-1035 | otherwise where the reader goes on, class by class, and what is read of an address that is not IPv4 and of a list |
| StunMessage.HeaderDecides | src/stun/src/message.cpp:120-206 | from the bytes alone: when a message is read, whatever its magic cookie, and its class, method, id and size |
| StunMessage.AfterReadDecides | src/stun/src/message.cpp:120-206 | what a message holds after any read, successful or not, field by field |
| StunMessage.AttributesKept | src/stun/src/message.cpp:174-196 | the attributes written before one that cannot be read are kept by the read that fails |
| StunMessage.Message.Add | src/stun/src/message.cpp:95-103 | the attribute is appended and the size field stays the padded sum modulo 65536 |
| StunMessage.Message.Write | src/stun/src/message.cpp:209-228 | the loop writes the specified bytes, each attribute behind all before it |
| StunMessage.Message.ReadOne | src/stun/src/message.cpp:177-196 | one turn of the loop takes the specified attribute, or none |
| StunMessage.Message.Read | src/stun/src/message.cpp:120-206 | the count returned and the fields left, also by a refused read, are those the lemmas above decide from the bytes of the buffer |
| TaskRunners.BoundedWaiting | src/base/src/task.cpp:240-276 | a task at position k that is not cancelled runs within k + 1 iterations, whatever else is added, cancelled or destroyed between any two steps |
| TaskRunners.AtMostOnce | src/base/src/task.cpp:251-256 | over every run, a task that does not repeat is run at most once |
| TaskRunners.Conserved | src/base/src/task.cpp:155-181 | over every run, what is queued, taken out or deleted by the loop is what was before and what was added |
| TaskRunners.Discarded | src/base/src/task.cpp:135-152 | over every run, what `destroy` has deleted on the spot is what it had before and what it dropped |
| TaskRunners.DeletedInTurnIff | src/base/src/task.cpp:135-276 | a queued task at position k that is marked as destroyed, and not cancelled from then on, is deleted within k + 1 iterations exactly if it was not cancelled before |
| TaskRunners.CancelledStays | src/base/src/task.cpp:206-214 | a task cancelled before its turn stays queued, never run and never deleted |
| TaskRunners.TidyIff | src/base/src/task.cpp:135-181 | over every run, no task ends up in two places, queued or deleted by the loop or by `destroy`, exactly if none was added or dropped that was in one already or came a second time |
| TaskRunners.TidyMeans | src/base/src/task.cpp:135-181 | when no task is in two places, one that has been deleted is not queued and was deleted once |
| TaskRunners.TidyStays | src/base/src/task.cpp:135-181 | so if every task is new when it is added or dropped, and is so once, none is deleted twice or queued after its deletion |
| TaskRunners.DeletedYetQueuedIff | src/base/src/task.cpp:168-181 | whatever happens between the look at its flag and its deletion, a task is still queued when the loop deletes it exactly if it was queued more than once or is added meanwhile |
| TaskRunners.DroppedThenQueued | src/base/src/task.cpp:135-165 | a `destroy` between the look and the push of one `add`, from an empty runner, leads to a task that is deleted and still queued |
| TaskRunners.DestroyedAgain | src/base/src/task.cpp:135-152 | a second `destroy` after the loop has deleted the task deletes it twice |
| TaskRunners.DeletedTwice | src/base/src/task.cpp:135-181 | so does one that looks between the removal and the deletion |
| TaskRunners.DoubleAddDangles | src/base/src/task.cpp:155-181 | two overlapping calls of `add`, from an empty runner, lead to a task that is deleted and still queued |
| TaskRunners.IterationLeads | src/base/src/task.cpp:240-276 | an undisturbed iteration is the machine's steps in order |
| TaskRunners.TaskRunner.Next | src/base/src/task.cpp:206-214 | the loop finds the first task that is not cancelled |
| TaskRunners.TaskRunner.Remove | src/base/src/task.cpp:168-181 | the loop takes the first occurrence out |
| TaskRunners.TaskRunner.AddTask | src/base/src/task.cpp:155-165 | the task is appended exactly if it was absent |
| TaskRunners.TaskRunner.CancelTask | src/base/src/task.cpp:112-132 | sets the flag once and reports whether it did |
| TaskRunners.TaskRunner.DestroyTask | src/base/src/task.cpp:135-152 | marks a queued task and leaves the queue alone; one that is not queued is deleted on the spot |
| TaskRunners.TaskRunner.Run | src/base/src/task.cpp:240-276 | the first task that is not cancelled runs and is cancelled unless it repeats, the front goes to the end, and the task that ran is deleted if it is marked; nothing changes if all are cancelled |
| StreamStates.StatesReachAdapters | src/base/src/packetstream.cpp:255-321 | over every interleaving, and while other adapters come and go, an adapter that stays attached is told the queued states once each in order, and jobs pass only when it has caught up |
| StreamStates.AttachedLate | src/base/src/packetstream.cpp:255-276 | an adapter attached at any moment of a run misses exactly the states done with, and the one being told if it is not among those to be told; from then on all that is said of an adapter holds of it |
| StreamStates.EnteredAfterStates | src/base/src/packetstream.cpp:292-321 | what was queued before a packet arrived has reached every adapter that stays attached before it enters the processor that was first when it arrived |
| StreamStates.AdaptersAgree | src/base/src/packetstream.cpp:255-276 | two adapters that stay attached differ at any moment by at most the state being sent |
| StreamStates.QueuedAsSetIff | src/base/include/scy/stateful.h:118-128 | over every run between moments at which nothing is left to queue, the states are queued as they were set exactly if none was set while a different one had yet to be queued |
| StreamStates.RacingStates | src/base/include/scy/stateful.h:118-128 | of two states set at once, both assigned before either is queued, the later is queued twice, which is right exactly if they are the same |
| Chains.Signal.Attach | src/base/include/scy/signal.h:143-155 | the slot is attached once, a duplicate being detached first |
| Chains.Signal.Detach | src/base/include/scy/signal.h:191-204 | exactly the equal slot is removed |
| PacketStreams.PacketStream.Setup | src/base/src/packetstream.cpp:376-405 | every signal gains exactly the stream's links |
| PacketStreams.PacketStream.Teardown | src/base/src/packetstream.cpp:408-429 | every signal loses exactly the links of the adapters now attached |
| Chains.LinksAt | src/base/src/packetstream.cpp:376-405 | the links `setup` puts on the signal of a processor are one, to the next in order or to the stream's emit |
| Chains.SourceLinksAt | src/base/src/packetstream.cpp:396-399 | on that of a source they are one, to the stream's own processing |
| Chains.ChainEntersAll | src/base/src/packetstream.cpp:376-405 | the way along the whole chain enters every processor once, in order |
| Chains.OnlyTheChainIff | src/base/src/packetstream.cpp:376-405 | on whatever the signals hold after `setup`, a packet from any source can only take the chain exactly if they held no slot of a stream before but the links |
| PacketStreams.PacketStream.StartAndClose | src/base/src/packetstream.cpp:50-171 | starting and closing gives a signal back what it held exactly if it held none of the links |
| Chains.LeftoverIff | src/base/src/packetstream.cpp:376-429 | of the links set up, a teardown without the k-th processor leaves some exactly on its signal and on that of the one before |
| PacketStreams.PacketStream.DetachInBetween | src/base/src/packetstream.cpp:50-524 | after start, stop, detach and close, a signal holds what it held before exactly if its processor is neither the detached one nor the one before it |
| PacketStreams.PacketStream.AttachInBetween | src/base/src/packetstream.cpp:50-507 | after start, stop, attach and start, the new chain is the only way for a packet exactly if the processor attached comes before all others |
| Chains.AttachedInBetween | src/base/src/packetstream.cpp:376-405 | on any signals with listeners only, a second `setup` after an attachment at place k leaves only links of the new chain exactly if k is 0 |
| Chains.EmitsTwice | src/base/src/packetstream.cpp:376-405 | otherwise the processor before the attached one emits every packet into both that and its former successor |
| PacketStreams.PacketStream.SynchronizeStates | src/base/src/packetstream.cpp:255-276 | the queue ends empty, and what was sent is what the next lemma is about |
| PacketStreams.BroadcastAt | src/base/src/packetstream.cpp:255-276 | each queued state is sent to each adapter, state by state and in the order of the adapters |
| PacketStreams.SynchronizeRun | src/base/src/packetstream.cpp:255-276 | what the sequential loop sends is a run of the concurrent machine |
| PacketStreams.PacketStream.ChangeState | src/base/src/packetstream.cpp:627-634 | a state is queued exactly if it differs from the current one |
| PacketStreams.PacketStream.Start | src/base/src/packetstream.cpp:50-71 | the links are set up and Active queued, unless already active; the whole chain can then be taken from every source, and is the only way exactly if the signals held nothing else of a stream |
| PacketStreams.PacketStream.Stop | src/base/src/packetstream.cpp:74-94 | Stopping and Stopped are queued, unless stopped or closed |
| PacketStreams.PacketStream.Pause | src/base/src/packetstream.cpp:97-101 | Paused is queued, unless already paused |
| PacketStreams.PacketStream.Resume | src/base/src/packetstream.cpp:104-113 | only a paused stream becomes active |
| PacketStreams.PacketStream.Lock | src/base/src/packetstream.cpp:197-204 | only a fresh stream can be locked |
| PacketStreams.PacketStream.Close | src/base/src/packetstream.cpp:128-171 | the links go away, and every adapter is told what was queued, Stopping and Stopped unless stopped, and Closed last, in the machine's run of closing |
| PacketStreams.CloseRun | src/base/src/packetstream.cpp:128-171 | closing ends closed with nothing left to tell |
| PacketStreams.PacketStream.Process | src/base/src/packetstream.cpp:279-355 | on state, queue, log and emitted packets: a packet enters the first processor of an active or just started stream, after the queued states; it is emitted instead, and nothing entered, if there is none or it must not be modified; a final one leaves the stream stopped; on any other stream nothing happens |
| PacketStreams.ProcessRun | src/base/src/packetstream.cpp:279-355 | processing is a run of the machine, and a packet for the processors is entered into the first of them and never rejected |
| PacketStreams.PacketStream.Attach | src/base/src/packetstream.cpp:495-507 | the processor is added with its order to a list that stays sorted, or refused on a stream in use |
| PacketStreams.PacketStream.AttachSource | src/base/src/packetstream.cpp:432-447 | the source is added, or refused on a stream in use |
| PacketStreams.PacketStream.Detach | src/base/src/packetstream.cpp:510-524 | the first reference to the processor is forgotten |
| DailyTriggers.SeventhDayAllowed | src/sched/src/trigger.cpp:190-204 | after six excluded days in a row, the seventh is allowed if any weekday is |
| DailyTriggers.FirstAllowedIsUnique | src/sched/src/trigger.cpp:190-204 | the first allowed day does not depend on order or duplicates of the exclusions |
| DailyTriggers.SearchIff | src/sched/src/trigger.cpp:190-204 | six rounds come to the first allowed day, whatever is excluded, exactly if the program sees the right weekdays on the seven days from the start on |
| DailyTriggers.SeesRightIff | src/sched/src/trigger.cpp:190-204 | it does exactly if, at the time of day of the clock reading, no error of the Julian day takes one of the seven days over a midnight |
| DailyTriggers.LateUpdate | src/sched/src/trigger.cpp:190-204 | ten microseconds before midnight of a Sunday, with Mondays excluded, the allowed Sunday is passed over |
| DailyTriggers.DailyTrigger.Round | src/sched/src/trigger.cpp:193-201 | with any errors of the Julian day, one round comes to the day the specification comes to, at the same time of day, and reports whether it moved |
| DailyTriggers.DailyTrigger.Search | src/sched/src/trigger.cpp:190-204 | so do six rounds, which the lemmas above are about |
| DailyTriggers.DailyTrigger.Update | src/sched/src/trigger.cpp:177-209 | the schedule is the day six rounds come to, at the set time; if the weekdays are seen right that is the first allowed day from its start day on, exactly if some weekday is allowed |
| Cleaners.NothingLost | src/base/src/memory.cpp:154-189 | over every run, the queued pointers are, in order, those deleted, being deleted, ready and pending |
| Cleaners.DeletedIff | src/base/src/memory.cpp:154-189 | the i-th pointer queued is deleted i-th, in the second tick after its queueing and exactly if two ticks have begun since |
| Cleaners.FinalizationEnds | src/base/src/memory.cpp:136-193 | if nothing more is queued, the timer stops in the first tick if nothing was pending and else in the second, and everything queued has then been deleted |
| Cleaners.StoppedForGood | src/base/src/memory.cpp:176-193 | what is queued after the timer stopped stays |
| Cleaners.TickRun | src/base/src/memory.cpp:154-193 | an undisturbed tick is the machine's steps in order |
| Cleaners.Cleaner.Queue | src/base/include/scy/memory.h:220-237 | the pointer is appended to those pending |
| Cleaners.Cleaner.Work | src/base/src/memory.cpp:154-193 | the queues move up, the ready ones are deleted in order, and the timer stops if both are empty while finalizing |
| Cleaners.Cleaner.Clear | src/base/include/scy/util.h:608-617 | every pointer is deleted once, in order |
| Cleaners.Cleaner.FinalizeAll | src/base/src/memory.cpp:136-151 | the loop ends in that tick with both queues empty and everything deleted in order |
| HeaderAssembly.HeaderRun | src/http/src/parser.cpp:274-307 | from any state, a header becomes the last one and the one before it is handed on |
| HeaderAssembly.CallsFrom | src/http/src/parser.cpp:274-333 | what is handed on for any headers from any state, left-over name and flag included |
| HeaderAssembly.AssembledIff | src/http/src/parser.cpp:274-333 | each header is handed on once and in order, however cut, exactly if no name was left over |
| HeaderAssembly.FragmentationDoesNotMatter | src/http/src/parser.cpp:274-333 | two ways of cutting the same headers cause the same calls |
| HeaderAssembly.NextMessageRepeatsLast | src/http/src/parser.cpp:110-116 | after a message, the next one on the same parser begins by repeating its last header |
| HeaderAssembly.Parser.OnHeaderField | src/http/src/parser.cpp:274-291 | the callback is the specified step |
| HeaderAssembly.Parser.OnHeaderValue | src/http/src/parser.cpp:294-307 | the callback is the specified step |
| HeaderAssembly.Parser.OnHeadersComplete | src/http/src/parser.cpp:310-318 | the callback is the specified step |
| UrlCodec.EncodeText | src/http/src/url.cpp:338-354 | the loop escapes character by character |
| UrlTexts.EscapedIff | src/http/src/url.cpp:338-354 | a character stands for itself exactly if RFC 3986 calls it unreserved |
| UrlCodec.DecodeText | src/http/src/url.cpp:357-372 | the loop decodes as specified and says when it would read out of bounds |
| UrlTexts.CutEscapes | src/http/src/url.cpp:357-372 | what becomes of an escape cut short by the end of the text, behind any text without escapes |
| UrlCodec.DecodeEncode | src/http/src/url.cpp:338-372 | decoding undoes encoding on every seven-bit text |
| UrlCodec.UnescapeIff | src/http/src/url.cpp:361-366 | the escapes, in either case of digits, that are decoded to the character they stand for |
| UrlCodec.WriteUrl | src/http/src/form.cpp:366-373 | the loop writes the fields joined by ampersands |
| UrlCodec.ReadForm | src/http/src/util.cpp:83-98 | reading form text gives its fields in order, encoded, without those lacking a name or a value |
| UrlTexts.FieldTaken | src/http/src/util.cpp:83-98 | in any text, a name goes up to the first equals sign and a value up to the next ampersand, whatever else is in them, and the parameter is left out if either is empty |
| UrlTexts.QueryBehind | src/http/src/util.cpp:83-85 | the query is what stands behind the first question mark |
| UrlTexts.NoField | src/http/src/util.cpp:83-98 | a text without an equals sign has no parameters |
| UrlCodec.FormRoundTrip | src/http/src/form.cpp:366-373 | every field comes through and decodes to itself exactly if each has a name and a value |
| UrlCodec.SplitForm | src/http/src/util.cpp:65-101 | behind a question mark, a form causes one call per such field and none for the path |
| UrlCodec.SplitPath | src/http/src/util.cpp:70-81 | path parts are set under the size of the collection at the time, up to the question mark |
| UrlTexts.PathParts | src/http/src/util.cpp:70-81 | the parts between slashes are found in order, without the empty ones, and the query ends them |
| UrlTexts.FirstCharacter | src/http/src/util.cpp:70-81 | the first character counts as a slash whatever it is |
| UrlTexts.PathNumbered | src/http/src/util.cpp:79-80 | in an empty collection the parts are numbered from 0 in their order |
| UrlCodec.SplitURIParameters | src/http/src/util.cpp:65-101 | on any text and collection, the calls and the resulting entries are those specified |
| UrlCodec.NVCollection.Set | src/base/src/collection.cpp:37-44 | the value under an equal name, case ignored, is replaced, or the entry put where its name belongs |
| UrlTexts.SameNameIff | src/base/include/scy/util.h:385-406 | two names are equal exactly if they differ in nothing but the case of their letters |
| UrlTexts.PrecedesIff | src/base/include/scy/util.h:385-406 | of two that are not, the first difference decides which comes first, and the end of a text comes before everything |
| UrlCodec.SetInKeeps | src/base/include/scy/collection.h:358-371 | setting keeps the entries sorted by their names, case ignored, and adds one exactly if the name is new |
| UrlCodec.FormEntriesIff | src/http/src/util.cpp:65-101 | a form of full fields leaves one entry for each field, its own, exactly if their names differ, case ignored |

## Left out

- DateTimes.DateTime.ComputeGregorian: rounding in its own divisions is not modelled; floating-point error is an arbitrary error of the Julian day it is given, bounded in `DateTimes.DateTime.Recompute` by an hour less two microseconds. The Julian day is one that an int64 tick count can have.
- DateTimes.DateTime.FromTicks: the Julian day is computed exactly here; `DateTimes.DateTime.Recompute` covers an inexact one from tick 0 on.
- DateTimes.DateTime.Week: years from 0 to 9999, as the validity check of the class has them. The weekdays it asks for are those of midnights, whose tick counts and Julian days are doubles (`DateTimes.MidnightIsDouble`), so no error is given.
- DateText.Parse: digits of a year without a width are added up without the overflow of `int`, and a parsed date is returned and not assigned to an object.
- DateText.Append: with a negative weekday the program reads in front of the table of names; that is excluded here, for formats that show the weekday, and in `DateHeader.SetDate`.
- Base64.EncodeBlock: the counter of groups on a line is unbounded, and the output buffer is required to have room, as the program assumes.
- WebSocket.ReadFrame: of a frame whose length goes past the buffer, only the bytes inside the buffer are unmasked before the error; what the program does to the memory behind it is not modelled, only when it gets there. The handshake is left out.
- BitBuffer.BitReader.Get: after a skip past the limit, `available` wraps around in the program and the next read goes out of bounds; here it fails.
- StunMessage.Message.Read: assertions are those of a build without them: a flag attribute stops a checked build when it is read or written, and an address of another family is left at its default.
- StunMessage.RestoredIff: attributes are values, so an attribute changed after it was added is not modelled; IPv6 addresses, and attribute lists with entries on reading, are not supported by the program.
- StunAttributes.HashInput: a vector made with a size is taken to have that capacity.
- TaskRunners.TidyIff: what becomes of a program that goes on with a deleted task is not defined; the machine goes on as if nothing had happened.
- TaskRunners.BoundedWaiting: `cancel` with a false argument, which takes a cancellation back, and the `clear` of the destructor are not steps of the machine.
- StreamStates.StatesReachAdapters: a state set while another thread is setting one is queued as it stands at the time of queueing, which is what the machine queues; adapters that throw, and reading a half-assigned state, are not modelled.
- PacketStreams.PacketStream.Process: what a processor does with a packet, exceptions with the Error state, and starting and stopping of sources are foreign calls and left out; so is the choice of a processor to accept a packet.
- PacketStreams.PacketStream.Attach: the place of a processor among others of its order is not stated, since the program's sort does not keep it.
- PacketStreams.PacketStream.AttachInBetween: the orders are distinct, since the program's sort may move processors of equal order.
- Chains.Signal.Attach: the order of slots, all of one priority, is not stated.
- DailyTriggers.DailyTrigger.Update: dates stay before the year 10000, and the two clock readings and the errors of the Julian day are parameters; the dates do not depend on those errors, as `DateTimes.DateTime.Recompute` shows.
- Random.PeriodIs127: the periods of the other degrees are not proved.
- HeaderAssembly.CallsFrom: header names that are empty altogether, which the parser library does not deliver.
- UrlCodec.EncodeText: characters above 127 overflow the program's buffer and are excluded.
- UrlCodec.SplitURIParameters: a parameter without an equals sign at the end makes the program look one character past the terminator before it tests the index; here the index is tested first. Names are compared as in the C locale.
- Random.Random.Seed: a generator that was never seeded reads its table uninitialised; here `initState` seeds it. The word that remembers the generator's type in the buffer is left out.
- Sockets, timers, threads, file access, the media and cryptography wrappers, local time zones, and the HTTP parser library itself.
- The word and number helpers of the bit reader, multipart forms, JSON-backed messages and rosters: easy members, or no clean specification.
