/** The availability query: how many rooms of a type are free at a hotel over
    a date range. */
module Availability {
  import opened Results
  import opened Dates
  import opened Text
  import opened Catalog
  import Counting

  /** A query range; a single date `d` is the range from `d` to `d`. */
  datatype Range = Range(start: Date, end: Date)

  // ---------------------------------------------------------------------------
  // The date-range argument

  lemma DigitsHaveNoDash(x: string)
    requires AllDigits(x)
    ensures !Contains(x, "-")
    ensures forall i :: 0 <= i < |x| ==> x[i] != '-'
  {
    forall j | 0 <= j <= |x| - 1
      ensures !OccursAt(x, "-", j)
    {
      assert x[j..j + 1][0] == x[j];
    }
  }

  /** Splits the text at every `-`, parses the first piece as the start and,
      when there is a second piece, that piece as the end; any further pieces
      are ignored. With one piece the end is the start. */
  function ParseRange(text: string): (r: Result<Range>)
    ensures r.Err? ==> r.failure == BadDateFormat
    ensures r.Ok? ==> Valid(r.value.start) && Valid(r.value.end)
  {
    var tokens := Split(text, "-");
    match ParseYmd(tokens[0])
    case None => Err(BadDateFormat)
    case Some(start) =>
      if |tokens| == 1 then
        Ok(Range(start, start))
      else
        match ParseYmd(tokens[1])
        case None => Err(BadDateFormat)
        case Some(end) => Ok(Range(start, end))
  }

  /** Every accepted text begins with the canonical rendering of the range it
      yields: a lone date, two dates joined by `-`, or those followed by a
      further `-` and anything at all. */
  lemma ParseRangeExact(text: string)
    ensures var r := ParseRange(text);
            r.Ok? ==>
              || (text == FormatYmd(r.value.start) && r.value.end == r.value.start)
              || text == FormatYmd(r.value.start) + "-" + FormatYmd(r.value.end)
              || StartsWith(text, FormatYmd(r.value.start) + "-" + FormatYmd(r.value.end) + "-")
  {
    var tokens := Split(text, "-");
    SplitJoins(text, "-");
    ParsedIsCanonical(tokens[0]);
    if ParseRange(text).Ok? && |tokens| > 1 {
      ParsedIsCanonical(tokens[1]);
      assert Join(tokens, "-") == tokens[0] + "-" + Join(tokens[1..], "-");
      if |tokens| > 2 {
        var tail := Join(tokens[2..], "-");
        assert tokens[1..][1..] == tokens[2..];
        assert text == tokens[0] + "-" + tokens[1] + "-" + tail;
        assert text[..|tokens[0] + "-" + tokens[1] + "-"|] == tokens[0] + "-" + tokens[1] + "-";
      }
    }
  }

  /** A single canonical date is the one-day range. */
  lemma ParseRangeSingle(d: Date)
    requires Valid(d)
    ensures ParseRange(FormatYmd(d)) == Ok(Range(d, d))
  {
    DigitsHaveNoDash(FormatYmd(d));
    SplitWhole(FormatYmd(d), "-");
    FormatParses(d);
  }

  /** Two canonical dates joined by `-` are the range between them. */
  lemma ParseRangePair(a: Date, b: Date)
    requires Valid(a) && Valid(b)
    ensures ParseRange(FormatYmd(a) + "-" + FormatYmd(b)) == Ok(Range(a, b))
  {
    var x, y := FormatYmd(a), FormatYmd(b);
    FormatParses(a);
    FormatParses(b);
    DigitsHaveNoDash(x);
    DigitsHaveNoDash(y);
    NoEarlierChar(x, '-', y);
    SplitFirst(x, "-", y);
    SplitWhole(y, "-");
  }

  /** Whatever follows a third `-` is ignored. */
  lemma ParseRangeIgnoresRest(a: Date, b: Date, rest: string)
    requires Valid(a) && Valid(b)
    ensures ParseRange(FormatYmd(a) + "-" + FormatYmd(b) + "-" + rest) == Ok(Range(a, b))
  {
    var x, y := FormatYmd(a), FormatYmd(b);
    FormatParses(a);
    FormatParses(b);
    DigitsHaveNoDash(x);
    DigitsHaveNoDash(y);
    NoEarlierChar(x, '-', y + "-" + rest);
    assert x + "-" + y + "-" + rest == x + "-" + (y + "-" + rest);
    SplitFirst(x, "-", y + "-" + rest);
    NoEarlierChar(y, '-', rest);
    SplitFirst(y, "-", rest);
  }

  // ---------------------------------------------------------------------------
  // When a booking occupies a room over the range

  predicate Matches(b: Booking, hotelId: string, roomType: string) {
    b.hotelId == hotelId && b.roomType == roomType
  }

  /** Both stored dates of the booking are exact yyyyMMdd calendar dates. */
  predicate WellDated(b: Booking) {
    ParseYmd(b.arrival).Some? && ParseYmd(b.departure).Some?
  }

  /** A stay overlaps the range unless it departs on or before the start or
      arrives on or after the end. */
  predicate Overlaps(arrival: Date, departure: Date, range: Range) {
    !(LessEq(departure, range.start) || LessEq(range.end, arrival))
  }

  /** The overlap rule as strict inequalities: the stay must depart after the
      start and arrive before the end, so touching end points do not overlap. */
  lemma OverlapIsStrict(arrival: Date, departure: Date, range: Range)
    ensures Overlaps(arrival, departure, range) <==> Before(range.start, departure) && Before(arrival, range.end)
  {
  }

  /** Whether booking `b` takes a room of the type at the hotel over the range.
      Its dates are read only as the query needs them: nothing for another
      hotel or type, then the departure, then the arrival only if the
      departure is after the start. A date that is read and does not parse
      fails the test. */
  function Occupies(b: Booking, hotelId: string, roomType: string, range: Range): (r: Result<bool>)
    ensures r == Ok(true) <==>
              Matches(b, hotelId, roomType) && WellDated(b)
              && Overlaps(ParseYmd(b.arrival).value, ParseYmd(b.departure).value, range)
    ensures WellDated(b) ==> r.Ok?
    ensures r.Err? ==> r.failure == BadDateFormat && Matches(b, hotelId, roomType)
  {
    if !(b.hotelId == hotelId && b.roomType == roomType) then Ok(false)
    else
      match ParseYmd(b.departure)
      case None => Err(BadDateFormat)
      case Some(departure) =>
        if LessEq(departure, range.start) then Ok(false)
        else
          match ParseYmd(b.arrival)
          case None => Err(BadDateFormat)
          case Some(arrival) => Ok(!LessEq(range.end, arrival))
  }

  /** A booking that checks out on the start date does not occupy the range,
      whatever its arrival text is. */
  lemma DepartureOnStartIsFree(b: Booking, hotelId: string, roomType: string, range: Range)
    requires ParseYmd(b.departure) == Some(range.start)
    ensures Occupies(b, hotelId, roomType, range) == Ok(false)
  {
  }

  /** A booking that checks in on the end date does not occupy the range. */
  lemma ArrivalOnEndIsFree(b: Booking, hotelId: string, roomType: string, range: Range)
    requires ParseYmd(b.arrival) == Some(range.end) && ParseYmd(b.departure).Some?
    ensures Occupies(b, hotelId, roomType, range) == Ok(false)
  {
  }

  /** A single-date query `d` counts a booking exactly when the guest arrived
      before `d` and leaves after `d`: a booking arriving on `d` itself is
      not counted. */
  lemma SingleDateQuery(b: Booking, hotelId: string, roomType: string, d: Date)
    ensures Occupies(b, hotelId, roomType, Range(d, d)) == Ok(true) <==>
              Matches(b, hotelId, roomType) && WellDated(b)
              && Before(ParseYmd(b.arrival).value, d) && Before(d, ParseYmd(b.departure).value)
  {
  }

  /** A narrower range is never occupied by more: whatever occupies it also
      occupies the wider one, and it reads no date the wider one does not. */
  lemma OccupiesWiden(b: Booking, hotelId: string, roomType: string, narrow: Range, wide: Range)
    requires LessEq(wide.start, narrow.start) && LessEq(narrow.end, wide.end)
    ensures Occupies(b, hotelId, roomType, wide).Ok? ==> Occupies(b, hotelId, roomType, narrow).Ok?
    ensures Occupies(b, hotelId, roomType, narrow) == Ok(true) ==> Occupies(b, hotelId, roomType, wide) == Ok(true)
  {
  }

  // ---------------------------------------------------------------------------
  // Counting occupied rooms

  function OccupancyTest(hotelId: string, roomType: string, range: Range): Booking -> Result<bool> {
    (b: Booking) => Occupies(b, hotelId, roomType, range)
  }

  /** The bookings occupying the range, by index. */
  ghost function OccupyingIndices(bookings: seq<Booking>, hotelId: string, roomType: string, range: Range): set<int> {
    set i | 0 <= i < |bookings| && Matches(bookings[i], hotelId, roomType) && WellDated(bookings[i])
                                && Overlaps(ParseYmd(bookings[i].arrival).value, ParseYmd(bookings[i].departure).value, range)
  }

  /** The number of bookings that occupy a room of the type at the hotel over
      the range; it fails when a date it has to read does not parse. */
  function Occupied(bookings: seq<Booking>, hotelId: string, roomType: string, range: Range): (r: Result<nat>)
    ensures r.Ok? <==> forall i :: 0 <= i < |bookings| ==> Occupies(bookings[i], hotelId, roomType, range).Ok?
    ensures r.Err? ==> r.failure == BadDateFormat
    ensures r.Ok? ==> r.value <= |bookings|
  {
    var test := OccupancyTest(hotelId, roomType, range);
    assert forall i :: 0 <= i < |bookings| ==> test(bookings[i]) == Occupies(bookings[i], hotelId, roomType, range);
    Counting.TryCountFirstFailure(bookings, test);
    Counting.TryCount(bookings, test)
  }

  /** A successful count is the number of bookings for the hotel and type whose
      stay overlaps the range. */
  lemma OccupiedCountsOverlaps(bookings: seq<Booking>, hotelId: string, roomType: string, range: Range)
    ensures var r := Occupied(bookings, hotelId, roomType, range);
            r.Ok? ==> r.value == |OccupyingIndices(bookings, hotelId, roomType, range)|
  {
    var test := OccupancyTest(hotelId, roomType, range);
    assert forall i :: 0 <= i < |bookings| ==> test(bookings[i]) == Occupies(bookings[i], hotelId, roomType, range);
    Counting.TryCountIsHits(bookings, test);
    assert Counting.Hits(bookings, test) == OccupyingIndices(bookings, hotelId, roomType, range);
  }

  // ---------------------------------------------------------------------------
  // The query

  /** Rooms of `roomType` at hotel `hotelId` not taken by bookings over
      `dateRange`. The checks run in order: the hotel, then the room type,
      then the dates, then the range order; only then are bookings read. The
      result is capacity minus occupied bookings and is not clamped at zero. */
  function CheckAvailability(hotels: seq<Hotel>, bookings: seq<Booking>, hotelId: string, dateRange: string,
                             roomType: string): (r: Result<int>)
    ensures FindHotel(hotels, hotelId).None? ==> r == Err(HotelNotFound)
    ensures FindHotel(hotels, hotelId).Some? && Capacity(FindHotel(hotels, hotelId).value, roomType) == 0 ==>
              r == Err(RoomTypeNotFound)
    ensures r.Ok? ==> && FindHotel(hotels, hotelId).Some?
                      && ParseRange(dateRange).Ok?
                      && LessEq(ParseRange(dateRange).value.start, ParseRange(dateRange).value.end)
    ensures r.Ok? ==> var total := Capacity(FindHotel(hotels, hotelId).value, roomType);
                      0 < total && total - |bookings| <= r.value <= total
    ensures r.Err? ==> r.failure != MissingArgument
  {
    match FindHotel(hotels, hotelId)
    case None => Err(HotelNotFound)
    case Some(hotel) =>
      var total := Capacity(hotel, roomType);
      if total == 0 then Err(RoomTypeNotFound)
      else
        match ParseRange(dateRange)
        case Err(f) => Err(f)
        case Ok(range) =>
          if !LessEq(range.start, range.end) then Err(InvalidDateRange)
          else
            match Occupied(bookings, hotelId, roomType, range)
            case Err(f) => Err(f)
            case Ok(occupied) => Ok(total - occupied)
  }

  /** Once the hotel, room type and range are accepted, the query fails only
      on a booking date it must read, and otherwise answers capacity minus
      the number of bookings whose stay overlaps the range. */
  lemma FreeRooms(hotels: seq<Hotel>, bookings: seq<Booking>, hotelId: string, dateRange: string,
                  roomType: string, hotel: Hotel, range: Range)
    requires FindHotel(hotels, hotelId) == Some(hotel) && Capacity(hotel, roomType) > 0
    requires ParseRange(dateRange) == Ok(range)
    ensures !LessEq(range.start, range.end) ==> CheckAvailability(hotels, bookings, hotelId, dateRange, roomType) == Err(InvalidDateRange)
    ensures LessEq(range.start, range.end) ==>
              var r := CheckAvailability(hotels, bookings, hotelId, dateRange, roomType);
              && (r.Ok? <==> forall i :: 0 <= i < |bookings| ==> Occupies(bookings[i], hotelId, roomType, range).Ok?)
              && (r.Ok? ==> r.value == Capacity(hotel, roomType) - |OccupyingIndices(bookings, hotelId, roomType, range)|)
              && ((forall i :: 0 <= i < |bookings| ==> WellDated(bookings[i])) ==> r.Ok?)
  {
    OccupiedCountsOverlaps(bookings, hotelId, roomType, range);
  }

  /** A bad date text is reported only after the hotel and room type are found. */
  lemma BadDateReportedAfterLookups(hotels: seq<Hotel>, bookings: seq<Booking>, hotelId: string, dateRange: string,
                                    roomType: string)
    requires ParseRange(dateRange).Err?
    ensures var r := CheckAvailability(hotels, bookings, hotelId, dateRange, roomType);
            match FindHotel(hotels, hotelId)
            case None => r == Err(HotelNotFound)
            case Some(hotel) => r == (if Capacity(hotel, roomType) == 0 then Err(RoomTypeNotFound) else Err(BadDateFormat))
  {
  }

  // ---------------------------------------------------------------------------
  // How the answer moves with the bookings and with the range

  lemma OccupiedInsert(bs1: seq<Booking>, b: Booking, bs2: seq<Booking>, hotelId: string, roomType: string, range: Range)
    ensures var test := OccupancyTest(hotelId, roomType, range);
            Occupied(bs1 + [b] + bs2, hotelId, roomType, range)
              == Counting.AddCounts(Counting.AddCounts(Occupied(bs1, hotelId, roomType, range), Counting.TryCount([b], test)),
                                    Occupied(bs2, hotelId, roomType, range))
    ensures Occupied(bs1 + bs2, hotelId, roomType, range)
              == Counting.AddCounts(Occupied(bs1, hotelId, roomType, range), Occupied(bs2, hotelId, roomType, range))
  {
    var test := OccupancyTest(hotelId, roomType, range);
    Counting.TryCountConcat(bs1 + [b], bs2, test);
    Counting.TryCountConcat(bs1, [b], test);
    Counting.TryCountConcat(bs1, bs2, test);
  }

  /** Two booking lists that occupy the range equally give the same answers. */
  lemma SameOccupancySameAnswer(hotels: seq<Hotel>, bsA: seq<Booking>, bsB: seq<Booking>,
                                hotelId: string, dateRange: string, roomType: string, range: Range)
    requires ParseRange(dateRange) == Ok(range)
    requires Occupied(bsA, hotelId, roomType, range) == Occupied(bsB, hotelId, roomType, range)
    ensures CheckAvailability(hotels, bsA, hotelId, dateRange, roomType)
            == CheckAvailability(hotels, bsB, hotelId, dateRange, roomType)
  {
  }

  lemma OccupiedSkipsFree(bs1: seq<Booking>, b: Booking, bs2: seq<Booking>, hotelId: string, roomType: string, range: Range)
    requires Occupies(b, hotelId, roomType, range) == Ok(false)
    ensures Occupied(bs1 + [b] + bs2, hotelId, roomType, range) == Occupied(bs1 + bs2, hotelId, roomType, range)
  {
    OccupiedInsert(bs1, b, bs2, hotelId, roomType, range);
    var test := OccupancyTest(hotelId, roomType, range);
    assert [b][..0] == [];
    assert Counting.TryCount([b], test) == Ok(0);
    var o1 := Occupied(bs1, hotelId, roomType, range);
    assert Counting.AddCounts(o1, Ok(0)) == o1;
  }

  /** Adding a booking that does not occupy the range leaves every answer as
      it was. */
  lemma FreeBookingChangesNothing(hotels: seq<Hotel>, bs1: seq<Booking>, b: Booking, bs2: seq<Booking>,
                                  hotelId: string, dateRange: string, roomType: string, range: Range)
    requires ParseRange(dateRange) == Ok(range)
    requires Occupies(b, hotelId, roomType, range) == Ok(false)
    ensures CheckAvailability(hotels, bs1 + [b] + bs2, hotelId, dateRange, roomType)
            == CheckAvailability(hotels, bs1 + bs2, hotelId, dateRange, roomType)
  {
    OccupiedSkipsFree(bs1, b, bs2, hotelId, roomType, range);
    SameOccupancySameAnswer(hotels, bs1 + [b] + bs2, bs1 + bs2, hotelId, dateRange, roomType, range);
  }

  /** A booking checking out on the start date never reduces availability. */
  lemma CheckoutOnStartIsFree(hotels: seq<Hotel>, bs1: seq<Booking>, b: Booking, bs2: seq<Booking>,
                              hotelId: string, dateRange: string, roomType: string, range: Range)
    requires ParseRange(dateRange) == Ok(range)
    requires ParseYmd(b.departure) == Some(range.start)
    ensures CheckAvailability(hotels, bs1 + [b] + bs2, hotelId, dateRange, roomType)
            == CheckAvailability(hotels, bs1 + bs2, hotelId, dateRange, roomType)
  {
    DepartureOnStartIsFree(b, hotelId, roomType, range);
    FreeBookingChangesNothing(hotels, bs1, b, bs2, hotelId, dateRange, roomType, range);
  }

  /** A booking checking in on the end date never reduces availability. */
  lemma CheckinOnEndIsFree(hotels: seq<Hotel>, bs1: seq<Booking>, b: Booking, bs2: seq<Booking>,
                           hotelId: string, dateRange: string, roomType: string, range: Range)
    requires ParseRange(dateRange) == Ok(range)
    requires ParseYmd(b.arrival) == Some(range.end) && ParseYmd(b.departure).Some?
    ensures CheckAvailability(hotels, bs1 + [b] + bs2, hotelId, dateRange, roomType)
            == CheckAvailability(hotels, bs1 + bs2, hotelId, dateRange, roomType)
  {
    ArrivalOnEndIsFree(b, hotelId, roomType, range);
    FreeBookingChangesNothing(hotels, bs1, b, bs2, hotelId, dateRange, roomType, range);
  }

  /** Adding a booking anywhere in the list lowers an answer by at most one,
      by exactly one when the booking occupies the range, and never raises it.
      A booking whose dates both parse cannot turn an answer into a failure. */
  lemma AddBookingNeverIncreases(hotels: seq<Hotel>, bs1: seq<Booking>, b: Booking, bs2: seq<Booking>,
                                 hotelId: string, dateRange: string, roomType: string, range: Range)
    requires ParseRange(dateRange) == Ok(range)
    requires CheckAvailability(hotels, bs1 + bs2, hotelId, dateRange, roomType).Ok?
    ensures var before := CheckAvailability(hotels, bs1 + bs2, hotelId, dateRange, roomType).value;
            var after := CheckAvailability(hotels, bs1 + [b] + bs2, hotelId, dateRange, roomType);
            && (WellDated(b) ==> after.Ok?)
            && (after.Ok? ==> before - 1 <= after.value <= before)
            && (after.Ok? ==> (after.value == before - 1 <==> Occupies(b, hotelId, roomType, range) == Ok(true)))
  {
    OccupiedInsert(bs1, b, bs2, hotelId, roomType, range);
    var test := OccupancyTest(hotelId, roomType, range);
    assert [b][..0] == [];
    assert Counting.TryCount([b], test) == match Occupies(b, hotelId, roomType, range)
                                            case Err(f) => Err(f)
                                            case Ok(hit) => Ok(if hit then 1 else 0);
  }

  /** Widening the range (an earlier start or a later end) never raises the
      answer, and a query that succeeds on the wider range succeeds on the
      narrower one. */
  lemma WiderRangeNeverIncreases(hotels: seq<Hotel>, bookings: seq<Booking>, hotelId: string, roomType: string,
                                 narrowText: string, wideText: string, narrow: Range, wide: Range)
    requires ParseRange(narrowText) == Ok(narrow) && ParseRange(wideText) == Ok(wide)
    requires LessEq(narrow.start, narrow.end)
    requires LessEq(wide.start, narrow.start) && LessEq(narrow.end, wide.end)
    requires CheckAvailability(hotels, bookings, hotelId, wideText, roomType).Ok?
    ensures CheckAvailability(hotels, bookings, hotelId, narrowText, roomType).Ok?
    ensures CheckAvailability(hotels, bookings, hotelId, wideText, roomType).value
            <= CheckAvailability(hotels, bookings, hotelId, narrowText, roomType).value
  {
    var tn, tw := OccupancyTest(hotelId, roomType, narrow), OccupancyTest(hotelId, roomType, wide);
    forall i | 0 <= i < |bookings|
      ensures tw(bookings[i]).Ok? ==> tn(bookings[i]).Ok?
      ensures tn(bookings[i]) == Ok(true) ==> tw(bookings[i]) == Ok(true)
    {
      OccupiesWiden(bookings[i], hotelId, roomType, narrow, wide);
    }
    Counting.TryCountMonotone(bookings, tn, tw);
  }
}
