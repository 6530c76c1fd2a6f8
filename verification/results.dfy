/** Shared outcome types: an optional value, the failures a query can end in,
    and a value-or-failure result. */
module Results {

  datatype Option<+T> = None | Some(value: T)

  /** The ways a query can fail. The C# program raises an exception for each;
      the interactive loop catches it and prints its message. */
  datatype Failure =
    | HotelNotFound      // "Hotel not found"
    | RoomTypeNotFound   // "Room type not found in hotel"
    | BadDateFormat      // a date text that is not an exact yyyyMMdd calendar date
    | InvalidDateRange   // "Invalid date range": start after end
    | MissingArgument    // fewer than three command arguments (index out of range)

  datatype Result<+T> = Ok(value: T) | Err(failure: Failure)
}
