/** One line of the interactive session: recognising the `Availability`
    command, splitting its three arguments, and the reply the loop prints. */
module Command {
  import opened Results
  import opened Text
  import opened Catalog
  import opened Availability

  const Prefix: string := "Availability"

  const Separator: string := ", "

  datatype QueryArgs = QueryArgs(hotelId: string, dateRange: string, roomType: string)

  /** What the loop prints for a line: a number of rooms, `Error: <message>`,
      or the unknown-command hint. */
  datatype Reply = Rooms(count: int) | Failed(failure: Failure) | UnknownCommand

  /** The text after the twelve characters of the prefix, with every leading
      and trailing parenthesis removed. */
  function ArgumentText(line: string): string
    requires StartsWith(line, Prefix)
  {
    TrimParens(line[12..])
  }

  /** Splits the argument text at every `", "`; the first three pieces are the
      hotel id, the date range and the room type, and any further pieces are
      ignored. Fewer than three pieces is a failure. */
  function SplitArguments(line: string): (r: Result<QueryArgs>)
    requires StartsWith(line, Prefix)
    ensures r.Err? ==> r.failure == MissingArgument
    ensures r.Ok? ==> && !Contains(r.value.hotelId, Separator)
                      && !Contains(r.value.dateRange, Separator)
                      && !Contains(r.value.roomType, Separator)
    ensures r.Err? <==> |Split(ArgumentText(line), Separator)| < 3
    ensures r.Ok? ==> || ArgumentText(line) == Render(r.value)
                      || StartsWith(ArgumentText(line), Render(r.value) + Separator)
  {
    var parts := Split(ArgumentText(line), Separator);
    SplitJoins(ArgumentText(line), Separator);
    if |parts| < 3 then Err(MissingArgument)
    else
      JoinAfterThree(parts, Separator);
      Ok(QueryArgs(parts[0], parts[1], parts[2]))
  }

  /** The printed reply for a query's result. */
  function ReplyOf(r: Result<int>): Reply {
    match r
    case Ok(n) => Rooms(n)
    case Err(f) => Failed(f)
  }

  /** The reply to one input line that is not blank. The loop ends the
      session on a null, empty or whitespace-only line before any reply, so
      the value for such a line (the unknown-command hint) is never printed.
      Lines without the prefix get the unknown-command hint; every failure of
      a recognised command is caught and reported, so no non-blank line ends
      the session. */
  function Respond(hotels: seq<Hotel>, bookings: seq<Booking>, line: string): (reply: Reply)
    ensures reply == UnknownCommand <==> !StartsWith(line, Prefix)
    ensures reply == Failed(MissingArgument) <==> StartsWith(line, Prefix) && SplitArguments(line).Err?
  {
    if !StartsWith(line, Prefix) then UnknownCommand
    else
      match SplitArguments(line)
      case Err(f) => Failed(f)
      case Ok(args) => ReplyOf(CheckAvailability(hotels, bookings, args.hotelId, args.dateRange, args.roomType))
  }

  /** An argument the command line can carry unchanged: it holds no separator. */
  predicate Plain(arg: string) {
    !Contains(arg, Separator)
  }

  /** The text between the parentheses survives trimming when it neither
      starts nor ends with a parenthesis. */
  predicate Unbracketed(inner: string) {
    |inner| > 0 ==> !IsParen(inner[0]) && !IsParen(inner[|inner| - 1])
  }

  /** The command line `Availability(<inner>)`. */
  function CommandLine(inner: string): string {
    Prefix + "(" + inner + ")"
  }

  /** The three arguments joined by the separator, as a user types them. */
  function Render(args: QueryArgs): string {
    args.hotelId + Separator + args.dateRange + Separator + args.roomType
  }

  lemma CommandLineArguments(inner: string)
    requires Unbracketed(inner)
    ensures StartsWith(CommandLine(inner), Prefix)
    ensures ArgumentText(CommandLine(inner)) == inner
  {
    var line := CommandLine(inner);
    assert line[..12] == Prefix;
    assert line[12..] == "(" + inner + ")";
    TrimWrapped(inner);
  }

  /** The pieces of a command line are the pieces of the text between its
      parentheses. */
  lemma SplitArgumentsOfText(inner: string)
    requires Unbracketed(inner)
    ensures var parts := Split(inner, Separator);
            SplitArguments(CommandLine(inner))
            == if |parts| < 3 then Err(MissingArgument) else Ok(QueryArgs(parts[0], parts[1], parts[2]))
  {
    CommandLineArguments(inner);
  }

  /** A plain first argument is split off whole. */
  lemma SplitAfterPlain(x: string, y: string)
    requires Plain(x)
    ensures Split(x + Separator + y, Separator) == [x] + Split(y, Separator)
  {
    NoEarlierCommaSpace(x, y);
    SplitFirst(x, Separator, y);
  }

  /** Three plain arguments joined by the separator split back into themselves. */
  lemma SplitThree(args: QueryArgs)
    requires Plain(args.hotelId) && Plain(args.dateRange) && Plain(args.roomType)
    ensures Split(Render(args), Separator) == [args.hotelId, args.dateRange, args.roomType]
  {
    var dt := args.dateRange + Separator + args.roomType;
    SplitWhole(args.roomType, Separator);
    SplitAfterPlain(args.dateRange, args.roomType);
    SplitAfterPlain(args.hotelId, dt);
    assert Render(args) == args.hotelId + Separator + dt;
  }

  lemma RegroupMore(args: QueryArgs, more: string)
    ensures Render(args) + Separator + more
            == args.hotelId + Separator + (args.dateRange + Separator + (args.roomType + Separator + more))
  {
  }

  lemma SplitNested(args: QueryArgs, more: string)
    requires Plain(args.hotelId) && Plain(args.dateRange) && Plain(args.roomType)
    ensures Split(args.hotelId + Separator + (args.dateRange + Separator + (args.roomType + Separator + more)), Separator)
            == [args.hotelId, args.dateRange, args.roomType] + Split(more, Separator)
  {
    var tm := args.roomType + Separator + more;
    SplitAfterPlain(args.roomType, more);
    SplitAfterPlain(args.dateRange, tm);
    SplitAfterPlain(args.hotelId, args.dateRange + Separator + tm);
  }

  /** Three plain arguments followed by more split into themselves and the rest. */
  lemma SplitThreeMore(args: QueryArgs, more: string)
    requires Plain(args.hotelId) && Plain(args.dateRange) && Plain(args.roomType)
    ensures Split(Render(args) + Separator + more, Separator)
            == [args.hotelId, args.dateRange, args.roomType] + Split(more, Separator)
  {
    RegroupMore(args, more);
    SplitNested(args, more);
  }

  /** `Availability(h, d, t)` yields exactly the arguments `h`, `d` and `t`. */
  lemma SplitArgumentsRoundTrip(args: QueryArgs)
    requires Plain(args.hotelId) && Plain(args.dateRange) && Plain(args.roomType)
    requires Unbracketed(Render(args))
    ensures SplitArguments(CommandLine(Render(args))) == Ok(args)
  {
    SplitArgumentsOfText(Render(args));
    SplitThree(args);
  }

  /** Arguments after the third are ignored. */
  lemma ExtraArgumentsIgnored(args: QueryArgs, more: string)
    requires Plain(args.hotelId) && Plain(args.dateRange) && Plain(args.roomType)
    requires Unbracketed(Render(args) + Separator + more)
    ensures SplitArguments(CommandLine(Render(args) + Separator + more)) == Ok(args)
  {
    SplitArgumentsOfText(Render(args) + Separator + more);
    SplitThreeMore(args, more);
  }

  /** `Availability(h, d)` and `Availability(h)` are reported as a missing
      argument. */
  lemma TooFewArguments(h: string, d: string)
    requires Plain(h) && Plain(d)
    requires Unbracketed(h + Separator + d) && Unbracketed(h)
    ensures SplitArguments(CommandLine(h + Separator + d)) == Err(MissingArgument)
    ensures SplitArguments(CommandLine(h)) == Err(MissingArgument)
  {
    SplitArgumentsOfText(h + Separator + d);
    SplitWhole(d, Separator);
    SplitAfterPlain(h, d);
    assert |Split(h + Separator + d, Separator)| == 2;
    SplitArgumentsOfText(h);
    SplitWhole(h, Separator);
  }

  /** A well-formed command line is answered with the query's own result. */
  lemma RespondToQuery(hotels: seq<Hotel>, bookings: seq<Booking>, args: QueryArgs)
    requires Plain(args.hotelId) && Plain(args.dateRange) && Plain(args.roomType)
    requires Unbracketed(Render(args))
    ensures Respond(hotels, bookings, CommandLine(Render(args)))
            == ReplyOf(CheckAvailability(hotels, bookings, args.hotelId, args.dateRange, args.roomType))
  {
    SplitArgumentsRoundTrip(args);
    CommandLineArguments(Render(args));
  }
}
