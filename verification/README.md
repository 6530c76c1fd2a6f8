# Hotel room availability, modelled in Dafny

`bookingApp` is a console program. It loads a list of hotels (each with its
rooms) and a list of bookings, then answers commands of the form
`Availability(H1, 20240404, SGL)` or `Availability(H1, 20240401-20240403, SGL)`.
Each answer is the number of rooms of that type at that hotel minus the
number of bookings for that hotel and type whose stay overlaps the date or
range. It is not clamped, so it can be negative when a type is overbooked,
and it is not a count of rooms that stay free throughout.

This project models the two pure parts of the program:

- the availability query `CheckAvailability`;
- the step that turns one command line into the query's three arguments.

The main proved properties:

- errors are reported in the program's order: hotel, room type, date format,
  range order, then bookings;
- a booking holds a room exactly when its hotel and room type match and its
  stay overlaps the range under the half-open rule, so touching end dates are
  free;
- the answer is capacity minus overlapping bookings, never clamped, and it
  lies between `capacity - |bookings|` and `capacity`;
- adding a booking or widening the range never raises the answer;
- `yyyyMMdd` parsing and formatting are inverses on calendar dates;
- the command splitter round-trips `Availability(h, d, t)` and ignores
  arguments after the third.

Modules:

| file | module | contents |
|---|---|---|
| results.dfy | `Results` | `Option`, `Result` and the `Failure` kinds: the exceptions the query throws and the one the command loop catches |
| dates.dfy | `Dates` | Gregorian `Date`, exact `yyyyMMdd` parsing and formatting, chronological order |
| text.dfy | `Text` | ordinal `StartsWith`, `Split` on a separator string, `Trim('(', ')')` |
| counting.dfy | `Counting` | LINQ `Count` with a predicate, including a predicate that may throw |
| catalog.dfy | `Catalog` | `Hotel`, `Room`, `Booking`, hotel lookup by id, rooms of a type |
| availability.dfy | `Availability` | range parsing, the per-booking overlap test, `CheckAvailability` |
| command.dfy | `Command` | one line of the interactive loop: prefix test, argument splitting, reply |
| scenarios.dfy | `Scenarios` | worked examples on a hotel `H1` with two `SGL` rooms |

How the model reads the C# code:

- An exception becomes an `Err` of the matching `Failure`.
  - "Hotel not found" is `HotelNotFound`.
  - "Room type not found in hotel" is `RoomTypeNotFound`.
  - A `FormatException` from `DateTime.ParseExact` is `BadDateFormat`.
  - "Invalid date range" is `InvalidDateRange`.
  - The index error on fewer than three arguments is `MissingArgument`.
- Booking dates stay text, as in the JSON. The `Count` predicate reads them
  lazily, as the C# `&&`/`||` short-circuit does:
  - a booking for another hotel or room type is not parsed at all;
  - otherwise the departure is parsed first;
  - the arrival is parsed only when the departure is after the start.
  A stored date that is parsed and malformed makes the whole query fail.
  The first such booking in list order decides the failure, as an exception
  thrown inside `Count` would.
- `DateTime.ParseExact(s, "yyyyMMdd", null)` accepts exactly eight ASCII
  digits naming a date of the proleptic Gregorian calendar with a year from
  1 to 9999. The order of dates is the order of their `yyyymmdd` numbers.

## Model

| member | source | states |
|---|---|---|
| Dates.DaysInMonth | bookingApp/Program.cs:95 | a month has 28 to 31 days; February has 29 exactly in leap years |
| Dates.Value | bookingApp/Program.cs:95 | a digit string denotes a number below ten to the power of its length |
| Dates.Digits | bookingApp/Program.cs:95 | rendering a number in a field width gives that many digits |
| Dates.DigitsValue | bookingApp/Program.cs:95 | reading back a number rendered in a wide enough field gives the number |
| Dates.ValueDigits | bookingApp/Program.cs:95 | rendering the number a digit string denotes, in the string's width, gives the string back (leading zeros kept) |
| Dates.FormatYmd | bookingApp/Program.cs:95 | a calendar date renders as eight digits |
| Dates.ParseYmd | bookingApp/Program.cs:95 | an accepted `yyyyMMdd` text always names a real calendar date |
| Dates.ParsedIsCanonical | bookingApp/Program.cs:95 | an accepted text is exactly the rendering of the date it yields |
| Dates.ParseYmdExact | bookingApp/Program.cs:95 | the text yields date `d` if and only if `d` is a calendar date and the text is its rendering |
| Dates.FormatParses | bookingApp/Program.cs:95 | parsing the rendering of a calendar date gives the date back |
| Dates.KeyOrder | bookingApp/Program.cs:102 | date comparison agrees with comparing the `yyyymmdd` numbers, both for `<=` and `<` |
| Text.IndexOfFrom | bookingApp/Program.cs:51 | finds the first occurrence of the separator at or after a position, or reports that none exists |
| Text.Split | bookingApp/Program.cs:51 | splitting always yields at least one piece |
| Text.SplitJoins | bookingApp/Program.cs:51 | the pieces joined by the separator give the input back, and no piece contains the separator |
| Text.SplitFirst | bookingApp/Program.cs:94 | a first piece without the separator is split off whole, and the rest is split on its own |
| Text.SplitWhole | bookingApp/Program.cs:94 | text without the separator is one piece |
| Text.JoinAfterThree | bookingApp/Program.cs:51-55 | a join of three or more pieces is the first three joined, alone or followed by the separator and more |
| Text.TrimParens | bookingApp/Program.cs:50 | the result is a middle slice of the input; everything cut from either end is a parenthesis, and the result neither starts nor ends with one |
| Text.TrimWrapped | bookingApp/Program.cs:50 | trimming `(x)` gives back `x` when `x` neither starts nor ends with a parenthesis |
| Counting.TryCount | bookingApp/Program.cs:107-109 | counting with a predicate that may fail succeeds exactly when the predicate succeeds on every element, and then counts at most the length |
| Counting.TryCountFirstFailure | bookingApp/Program.cs:107-109 | a failed count reports the failure of the first element whose test fails, and every earlier test succeeded |
| Counting.TryCountIsHits | bookingApp/Program.cs:107-109 | a successful count is the number of positions whose test is true |
| Counting.TryCountZero | bookingApp/Program.cs:107-109 | a successful count is zero exactly when no element's test is true |
| Counting.TryCountConcat | bookingApp/Program.cs:107-109 | counting a concatenation adds the two counts, and the first list's failure comes before the second's |
| Counting.TryCountMonotone | bookingApp/Program.cs:107-109 | when a wider test is true wherever a narrower one is, and succeeds only where the narrower one does, a successful wide count means the narrow count succeeds and is no larger |
| Counting.Count | bookingApp/Program.cs:90 | the count is the number of positions satisfying the predicate; it is at most the length and is zero exactly when nothing satisfies it |
| Catalog.FindHotel | bookingApp/Program.cs:86 | finds the first hotel with the id; reports none exactly when no hotel has it |
| Catalog.Capacity | bookingApp/Program.cs:90 | the number of the hotel's rooms with the type, at most the room count; zero exactly when no room has the type |
| Availability.DigitsHaveNoDash | bookingApp/Program.cs:94 | a digit string contains no `-` |
| Availability.ParseRange | bookingApp/Program.cs:94-100 | fails only with a bad date format; an accepted range has two calendar dates |
| Availability.ParseRangeExact | bookingApp/Program.cs:94-100 | an accepted text is one rendered date (end equals start), two rendered dates joined by `-`, or those followed by `-` and anything else |
| Availability.ParseRangeSingle | bookingApp/Program.cs:96 | one rendered date is the range from that date to itself |
| Availability.ParseRangePair | bookingApp/Program.cs:97-100 | two rendered dates joined by `-` are the range between them |
| Availability.ParseRangeIgnoresRest | bookingApp/Program.cs:94-100 | after two rendered dates and a further `-`, whatever follows is ignored |
| Availability.OverlapIsStrict | bookingApp/Program.cs:108-109 | a stay overlaps exactly when it departs after the start and arrives before the end |
| Availability.Occupies | bookingApp/Program.cs:107-109 | a booking holds a room exactly when hotel and type match, both dates parse and the stay overlaps; well-dated bookings never fail; a failure is a bad date of a matching booking |
| Availability.DepartureOnStartIsFree | bookingApp/Program.cs:108 | a booking departing on the start date holds no room, whatever its arrival text |
| Availability.ArrivalOnEndIsFree | bookingApp/Program.cs:109 | a booking arriving on the end date holds no room |
| Availability.SingleDateQuery | bookingApp/Program.cs:96 | for a single date `d`, a booking holds a room exactly when it matches, both dates parse, and it arrived before `d` and departs after `d` |
| Availability.OccupiesWiden | bookingApp/Program.cs:107-109 | a booking whose test succeeds on a wider range succeeds on the narrower one, and a booking holding the narrower range holds the wider one |
| Availability.Occupied | bookingApp/Program.cs:107-109 | counting the bookings succeeds exactly when every booking's test succeeds; it fails only with a bad date and counts at most the number of bookings |
| Availability.OccupiedCountsOverlaps | bookingApp/Program.cs:107-109 | a successful count is the number of bookings that hold a room over the range |
| Availability.CheckAvailability | bookingApp/Program.cs:84-112 | an unknown hotel fails with hotel not found, and a hotel without the type fails with room type not found; an answer means the hotel exists and the range parses in order; an answer lies between capacity minus the number of bookings and the capacity, which is positive |
| Availability.FreeRooms | bookingApp/Program.cs:102-111 | with hotel, type and range accepted: a reversed range fails as invalid; otherwise the query answers exactly when every booking's test succeeds, the answer is capacity minus the overlapping bookings, and well-dated bookings always give an answer |
| Availability.BadDateReportedAfterLookups | bookingApp/Program.cs:86-95 | a malformed range is reported only after an unknown hotel or a missing room type would have been |
| Availability.OccupiedInsert | bookingApp/Program.cs:107 | the count over a list with one booking inserted is the count of the pieces around it plus that booking's own count |
| Availability.SameOccupancySameAnswer | bookingApp/Program.cs:107-111 | two booking lists with the same occupancy count give the same answer |
| Availability.OccupiedSkipsFree | bookingApp/Program.cs:107-109 | inserting a booking that holds no room leaves the count unchanged |
| Availability.FreeBookingChangesNothing | bookingApp/Program.cs:107-111 | inserting a booking that holds no room leaves every answer unchanged |
| Availability.CheckoutOnStartIsFree | bookingApp/Program.cs:108 | inserting a booking that departs on the start date leaves every answer unchanged |
| Availability.CheckinOnEndIsFree | bookingApp/Program.cs:109 | inserting a booking that arrives on the end date leaves every answer unchanged |
| Availability.AddBookingNeverIncreases | bookingApp/Program.cs:107-111 | inserting a booking never raises the answer; it lowers it by exactly one if and only if the booking holds a room; a well-dated booking cannot turn an answer into a failure |
| Availability.WiderRangeNeverIncreases | bookingApp/Program.cs:107-111 | if the wider range gets an answer, the narrower one does too, and its answer is at least as large |
| Command.SplitArguments | bookingApp/Program.cs:50-63 | fails, with a missing argument, exactly when the trimmed argument text has fewer than three `", "` pieces; the three arguments contain no separator, and the argument text is them joined by the separator, alone or followed by the separator and more |
| Command.Respond | bookingApp/Program.cs:46-68 | a line is an unknown command exactly when it lacks the `Availability` prefix; it reports a missing argument exactly when it has the prefix and fewer than three arguments |
| Command.CommandLineArguments | bookingApp/Program.cs:50 | the argument text of `Availability(x)` is `x` when `x` neither starts nor ends with a parenthesis |
| Command.SplitArgumentsOfText | bookingApp/Program.cs:50-51 | the pieces of `Availability(x)` are the pieces of `x` |
| Command.SplitThree | bookingApp/Program.cs:51 | three separator-free arguments joined by `", "` split into exactly those three |
| Command.SplitThreeMore | bookingApp/Program.cs:51 | three separator-free arguments followed by more split into those three and then the rest |
| Command.SplitArgumentsRoundTrip | bookingApp/Program.cs:50-55 | `Availability(h, d, t)` yields exactly `h`, `d` and `t` |
| Command.ExtraArgumentsIgnored | bookingApp/Program.cs:53-55 | pieces after the third argument are ignored |
| Command.TooFewArguments | bookingApp/Program.cs:53-63 | one or two arguments are reported as a missing argument |
| Command.RespondToQuery | bookingApp/Program.cs:46-58 | a well-formed command line is answered with the query's own result |
| Scenarios.HotelH1 | bookingApp/Program.cs:86-90 | the example hotel is found and has two rooms of the type |
| Scenarios.NothingBooked | bookingApp/Program.cs:84-112 | with no bookings both rooms are free on a single date |
| Scenarios.OneNightInside | bookingApp/Program.cs:107-111 | a stay from the 3rd to the 5th holds a room on the 4th, leaving one |
| Scenarios.RangeFromCheckoutDay | bookingApp/Program.cs:108 | a range starting on that stay's departure day leaves both rooms free |
| Scenarios.UnknownHotel | bookingApp/Program.cs:86-88 | an unknown hotel is reported even when the date text is malformed |
| Scenarios.UnknownRoomType | bookingApp/Program.cs:90-92 | a missing room type is reported even when the date text is malformed |
| Scenarios.DashedDate | bookingApp/Program.cs:94-95 | `2024-04-04` is not the `yyyyMMdd` format |
| Scenarios.BackwardsRange | bookingApp/Program.cs:102-105 | a range whose start is after its end is rejected as invalid |
| Scenarios.ReadsFields | bookingApp/Program.cs:95 | an eight-digit text parses exactly when its year, month and day fields name a calendar date, and is then that date's rendering |
| Scenarios.LeapDay2024 | bookingApp/Program.cs:95 | `20240229` is accepted |
| Scenarios.LeapDay2000 | bookingApp/Program.cs:95 | `20000229` is accepted |
| Scenarios.NoLeapDay2023 | bookingApp/Program.cs:95 | `20230229` is rejected |
| Scenarios.NoLeapDay1900 | bookingApp/Program.cs:95 | `19000229` is rejected |
| Scenarios.YearZero | bookingApp/Program.cs:95 | `00000101` is rejected |
| Scenarios.NoApril31 | bookingApp/Program.cs:95 | `20240431` is rejected |
| Scenarios.CommandForInsideNight | bookingApp/Program.cs:46-58 | the line `Availability(H1, 20240404, SGL)` is answered with 1 for the example stay |

## Left out

- Command-line flag checking, the `File.Exists` test and the usage and
  press-a-key messages (bookingApp/Program.cs:16-33) are console and file I/O.
- JSON loading in `LoadHotels` and `LoadBookings` (bookingApp/Program.cs:72-82)
  calls Newtonsoft. The hotel and booking lists are parameters instead, and
  null lists and null fields are not modelled.
- The console loop is not modelled: reading lines, stopping at a null, empty
  or whitespace-only line, and printing (bookingApp/Program.cs:40-45, 58, 62,
  67). `Respond` is the reply to one non-blank line; on a blank line it
  answers the unknown-command hint, which the program never prints because
  the loop has already stopped. Because it is pure, the
  session always continues with the same lists after an error. The printed
  message texts are reduced to the `Failure` kinds.
- Command.Respond: `string.StartsWith(string)` in .NET compares by the current
  culture. The model compares ordinally, character by character.
- Dates.ParseYmd: the culture and calendar of `DateTime.ParseExact` with a null
  provider are not modelled. The model assumes the Gregorian calendar with
  years 1 to 9999, and times of day do not arise.
- Text.Split: the separators in the program (`-` and `", "`) are never
  empty, so the empty-separator case of `String.Split` is outside the model
  (`requires |sep| > 0`).
- Counting.Count: C#'s `Count` returns a 32-bit `int` and throws on
  overflow past 2^31 - 1 matches. The model counts with unbounded integers,
  because no in-memory list reaches that size.
- Availability.CheckAvailability: the result is an unbounded `int`. The
  C# subtraction of two non-negative 32-bit counts cannot overflow.
- The `bookingApp.Models` classes are not part of
  this model. `Hotel`, `Room` and `Booking` carry only the properties the
  query reads.
