/** The worked examples of the booking application, proved about the model:
    one hotel `H1` with two `SGL` rooms. Helper lemmas take a literal text as
    a parameter fixed by their `requires`, so that their proofs reason about
    the pieces of the text instead of unfolding the parser on the literal. */
module Scenarios {
  import opened Results
  import opened Dates
  import opened Catalog
  import opened Availability
  import opened Command

  function Hotels(): seq<Hotel> {
    [Hotel("H1", [Room("SGL"), Room("SGL")])]
  }

  function Stay(): Booking {
    Booking("H1", "SGL", "20240403", "20240405")
  }

  lemma HotelH1()
    ensures FindHotel(Hotels(), "H1") == Some(Hotels()[0])
    ensures Capacity(Hotels()[0], "SGL") == 2
  {
    var rooms := Hotels()[0].rooms;
    assert (set i | 0 <= i < |rooms| && rooms[i].roomType == "SGL") == {0, 1};
  }

  /** The booked stay's dates are well formed. */
  lemma StayDates()
    ensures ParseYmd(Stay().arrival) == Some(Date(2024, 4, 3))
    ensures ParseYmd(Stay().departure) == Some(Date(2024, 4, 5))
  {
    ReadsFields(Stay().arrival, 2024, 4, 3);
    ReadsFields(Stay().departure, 2024, 4, 5);
  }

  /** Both rooms are free when nothing is booked. */
  lemma NothingBooked()
    ensures CheckAvailability(Hotels(), [], "H1", "20240404", "SGL") == Ok(2)
  {
    var d := Date(2024, 4, 4);
    FourthOfApril("20240404");
    NothingBookedIn("20240404", Range(d, d));
  }

  /** The single-date text of the examples. */
  lemma FourthOfApril(text: string)
    requires text == "20240404"
    ensures ParseRange(text) == Ok(Range(Date(2024, 4, 4), Date(2024, 4, 4)))
  {
    ReadsFields(text, 2024, 4, 4);
    ParseRangeSingle(Date(2024, 4, 4));
  }

  /** The guest arriving on the 3rd and leaving on the 5th holds a room on the 4th. */
  lemma OneNightInside()
    ensures CheckAvailability(Hotels(), [Stay()], "H1", "20240404", "SGL") == Ok(1)
  {
    HotelH1();
    var d := Date(2024, 4, 4);
    FourthOfApril("20240404");
    StayDates();
    FreeRooms(Hotels(), [Stay()], "H1", "20240404", "SGL", Hotels()[0], Range(d, d));
    OccupiedCountsOverlaps([Stay()], "H1", "SGL", Range(d, d));
    assert OccupyingIndices([Stay()], "H1", "SGL", Range(d, d)) == {0};
  }

  /** The range text of the checkout-day query. */
  lemma CheckoutDayRange(text: string)
    requires text == "20240405-20240406"
    ensures ParseRange(text) == Ok(Range(Date(2024, 4, 5), Date(2024, 4, 6)))
  {
    var a, b := Date(2024, 4, 5), Date(2024, 4, 6);
    ReadsFields(text[..8], 2024, 4, 5);
    ReadsFields(text[9..], 2024, 4, 6);
    assert text == text[..8] + "-" + text[9..];
    ParseRangePair(a, b);
  }

  /** The checkout-day query, with its range text as a parameter. */
  lemma CheckoutDayAnswer(text: string)
    requires text == "20240405-20240406"
    ensures CheckAvailability(Hotels(), [Stay()], "H1", text, "SGL") == Ok(2)
  {
    var range := Range(Date(2024, 4, 5), Date(2024, 4, 6));
    CheckoutDayRange(text);
    StayDates();
    CheckoutOnStartIsFree(Hotels(), [], Stay(), [], "H1", text, "SGL", range);
    assert [] + [Stay()] + [] == [Stay()];
    NothingBookedIn(text, range);
  }

  /** With no bookings every room of the type is free in a valid range. */
  lemma NothingBookedIn(text: string, range: Range)
    requires ParseRange(text) == Ok(range)
    requires LessEq(range.start, range.end)
    ensures CheckAvailability(Hotels(), [], "H1", text, "SGL") == Ok(2)
  {
    HotelH1();
  }

  /** A range starting on the guest's departure day leaves both rooms free. */
  lemma RangeFromCheckoutDay()
    ensures CheckAvailability(Hotels(), [Stay()], "H1", "20240405-20240406", "SGL") == Ok(2)
  {
    CheckoutDayAnswer("20240405-20240406");
  }

  /** An unknown hotel is reported even with a malformed date. */
  lemma UnknownHotel()
    ensures CheckAvailability(Hotels(), [Stay()], "H9", "garbage", "SGL") == Err(HotelNotFound)
  {
  }

  /** A known hotel without the room type is reported before the dates are read. */
  lemma UnknownRoomType()
    ensures CheckAvailability(Hotels(), [Stay()], "H1", "garbage", "DBL") == Err(RoomTypeNotFound)
  {
    var rooms := Hotels()[0].rooms;
    assert (set i | 0 <= i < |rooms| && rooms[i].roomType == "DBL") == {};
  }

  /** A dashed calendar date is not the yyyyMMdd format. */
  lemma DashedDate()
    ensures CheckAvailability(Hotels(), [Stay()], "H1", "2024-04-04", "SGL") == Err(BadDateFormat)
  {
    HotelH1();
    DashedText("2024-04-04");
  }

  /** The dashed text's first piece, `2024`, is too short to be a date. */
  lemma DashedText(text: string)
    requires text == "2024-04-04"
    ensures ParseRange(text) == Err(BadDateFormat)
  {
    Text.NoEarlierChar(text[..4], '-', text[5..]);
    Text.SplitFirst(text[..4], "-", text[5..]);
    assert text == text[..4] + "-" + text[5..];
  }

  /** The backwards text parses as a range; only its order is wrong. */
  lemma BackwardsText(text: string)
    requires text == "20240410-20240401"
    ensures ParseRange(text) == Ok(Range(Date(2024, 4, 10), Date(2024, 4, 1)))
  {
    var a, b := Date(2024, 4, 10), Date(2024, 4, 1);
    ReadsFields(text[..8], 2024, 4, 10);
    ReadsFields(text[9..], 2024, 4, 1);
    assert text == text[..8] + "-" + text[9..];
    ParseRangePair(a, b);
  }

  /** A range whose start is after its end is rejected. */
  lemma BackwardsRange()
    ensures CheckAvailability(Hotels(), [Stay()], "H1", "20240410-20240401", "SGL") == Err(InvalidDateRange)
  {
    HotelH1();
    BackwardsText("20240410-20240401");
  }

  /** The number a two-digit string denotes. */
  lemma ValueOfTwo(s: string)
    requires |s| == 2 && AllDigits(s)
    ensures Value(s) == 10 * DigitValue(s[0]) + DigitValue(s[1])
  {
    assert s[..1][..0] == [];
  }

  /** The number a four-digit string denotes. */
  lemma ValueOfFour(s: string)
    requires |s| == 4 && AllDigits(s)
    ensures Value(s) == 1000 * DigitValue(s[0]) + 100 * DigitValue(s[1]) + 10 * DigitValue(s[2]) + DigitValue(s[3])
  {
    ValueOfTwo(s[..2]);
    assert s[..3][..2] == s[..2];
  }

  /** An eight-digit text is read field by field; it parses exactly when
      the fields name a calendar date, and then it is that date's own text. */
  lemma ReadsFields(s: string, year: int, month: int, day: int)
    requires |s| == 8 && AllDigits(s)
    requires 1000 * DigitValue(s[0]) + 100 * DigitValue(s[1]) + 10 * DigitValue(s[2]) + DigitValue(s[3]) == year
    requires 10 * DigitValue(s[4]) + DigitValue(s[5]) == month
    requires 10 * DigitValue(s[6]) + DigitValue(s[7]) == day
    ensures ParseYmd(s) == if Valid(Date(year, month, day)) then Some(Date(year, month, day)) else None
    ensures Valid(Date(year, month, day)) ==> FormatYmd(Date(year, month, day)) == s
  {
    ValueOfFour(s[..4]);
    ValueOfTwo(s[4..6]);
    ValueOfTwo(s[6..]);
    ParsedIsCanonical(s);
  }

  /** February 29th exists in 2024, a year divisible by four. */
  lemma LeapDay2024()
    ensures ParseYmd("20240229") == Some(Date(2024, 2, 29))
  {
    LeapDay2024Text("20240229");
  }

  lemma LeapDay2024Text(s: string)
    requires s == "20240229"
    ensures ParseYmd(s) == Some(Date(2024, 2, 29))
  {
    ReadsFields(s, 2024, 2, 29);
  }

  /** February 29th exists in 2000, a year divisible by four hundred. */
  lemma LeapDay2000()
    ensures ParseYmd("20000229") == Some(Date(2000, 2, 29))
  {
    LeapDay2000Text("20000229");
  }

  lemma LeapDay2000Text(s: string)
    requires s == "20000229"
    ensures ParseYmd(s) == Some(Date(2000, 2, 29))
  {
    ReadsFields(s, 2000, 2, 29);
  }

  /** February 29th does not exist in 2023. */
  lemma NoLeapDay2023()
    ensures ParseYmd("20230229") == None
  {
    NoLeapDay2023Text("20230229");
  }

  lemma NoLeapDay2023Text(s: string)
    requires s == "20230229"
    ensures ParseYmd(s) == None
  {
    ReadsFields(s, 2023, 2, 29);
  }

  /** February 29th does not exist in 1900, a century not divisible by four hundred. */
  lemma NoLeapDay1900()
    ensures ParseYmd("19000229") == None
  {
    NoLeapDay1900Text("19000229");
  }

  lemma NoLeapDay1900Text(s: string)
    requires s == "19000229"
    ensures ParseYmd(s) == None
  {
    ReadsFields(s, 1900, 2, 29);
  }

  /** Year zero is outside the calendar. */
  lemma YearZero()
    ensures ParseYmd("00000101") == None
  {
    YearZeroText("00000101");
  }

  lemma YearZeroText(s: string)
    requires s == "00000101"
    ensures ParseYmd(s) == None
  {
    ReadsFields(s, 0, 1, 1);
  }

  /** April 31st does not exist. */
  lemma NoApril31()
    ensures ParseYmd("20240431") == None
  {
    NoApril31Text("20240431");
  }

  lemma NoApril31Text(s: string)
    requires s == "20240431"
    ensures ParseYmd(s) == None
  {
    ReadsFields(s, 2024, 4, 31);
  }

  /** A text without a comma cannot hold the argument separator. */
  lemma NoComma(s: string)
    requires forall k :: 0 <= k < |s| ==> s[k] != ','
    ensures Plain(s)
  {
    forall i | 0 <= i <= |s| - |Separator|
      ensures !Text.OccursAt(s, Separator, i)
    {
      assert s[i..i + 2][0] == s[i];
    }
  }

  /** The interactive command for the inside night prints 1. */
  lemma CommandForInsideNight()
    ensures Respond(Hotels(), [Stay()], "Availability(H1, 20240404, SGL)") == Rooms(1)
  {
    var args := QueryArgs("H1", "20240404", "SGL");
    NoComma(args.hotelId);
    NoComma(args.dateRange);
    NoComma(args.roomType);
    assert CommandLine(Render(args)) == "Availability(H1, 20240404, SGL)";
    RespondToQuery(Hotels(), [Stay()], args);
    OneNightInside();
  }
}
