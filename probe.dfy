/**
 * One probe of one port (`scanPort`): the outcome of the connection attempt
 * and of the service-name lookup are inputs; an open port becomes the row
 * `(port, host, service, description)`, anything else becomes `None`.
 */
module Probe {
  import opened Wrappers
  import opened Text
  import opened Descriptions

  const NoDescription: string := "no description available"
  const UnknownService: string := "unknown"

  /** The tuple `(port, host, service, description)` reported for an open port. */
  datatype Found = Found(port: int, host: string, service: string, description: string)

  /** How the connection attempt ended: `connect_ex` returned an error number (0 = connected), or something raised. */
  datatype Connect = Returned(errno: int) | Raised

  /** `self.descriptions.get(str(port), "no description available")`. */
  function Describe(descriptions: map<string, string>, port: int): (d: string)
    ensures IntToString(port) in descriptions ==> d == descriptions[IntToString(port)]
    ensures IntToString(port) !in descriptions ==> d == NoDescription
  {
    var key := IntToString(port);
    if key in descriptions then descriptions[key] else NoDescription
  }

  /**
   * `scanPort(host, port)`, with the error in its exception handler corrected
   * (see README, Findings): an open port yields its row, a refused, timed-out
   * or failed attempt yields `None`.
   */
  function ScanPort(descriptions: map<string, string>, host: string, port: int,
                    connect: Connect, service: Option<string>): (r: Option<Found>)
    ensures r.Some? <==> connect == Returned(0)
    ensures r.Some? ==> r.value.port == port && r.value.host == host
    ensures r.Some? ==> r.value.service == (if service.Some? then service.value else UnknownService)
    ensures r.Some? ==> r.value.description == Describe(descriptions, port)
  {
    match connect
    case Returned(errno) =>
      if errno == 0 then Some(Found(port, host, service.GetOr(UnknownService), Describe(descriptions, port)))
      else None
    case Raised => None
  }

  // ---------------------------------------------------------------------------
  // The handler as written

  /** The exception Python raises for a call with the wrong number of arguments. */
  datatype PyError = TypeError

  /** What a call to a Python function ended with. */
  datatype Completion<T> = Completed(value: T) | Raises(error: PyError)

  /** `custom_logger.exception` takes exactly one positional argument. */
  const LoggerArity: nat := 1

  /** Calling `exception` with `argc` arguments: it logs, or the call itself raises. */
  function CallLogger(argc: nat): (c: Completion<()>)
    ensures c.Completed? <==> argc == LoggerArity
    ensures c.Raises? ==> c.error == TypeError
  {
    if argc == LoggerArity then Completed(()) else Raises(TypeError)
  }

  /**
   * `scanPort` exactly as written: the handler calls `exception(e, message)`
   * with two arguments, so when the attempt raises, the handler raises too.
   */
  function ScanPortAsWritten(descriptions: map<string, string>, host: string, port: int,
                             connect: Connect, service: Option<string>): (c: Completion<Option<Found>>)
    ensures connect.Raised? ==> c == Raises(TypeError)
  {
    match connect
    case Returned(errno) =>
      if errno == 0 then Completed(Some(Found(port, host, service.GetOr(UnknownService), Describe(descriptions, port))))
      else Completed(None)
    case Raised =>
      match CallLogger(2)
      case Raises(e) => Raises(e)
      case Completed(_) => Completed(None)
  }

  /**
   * The discrepancy: on an attempt that raises, the code as written raises
   * `TypeError` out of the probe, where the corrected probe reports the port
   * as closed. On every other outcome the two agree.
   */
  lemma HandlerRaisesTypeError(descriptions: map<string, string>, host: string, port: int,
                               connect: Connect, service: Option<string>)
    ensures connect.Raised? ==>
      ScanPortAsWritten(descriptions, host, port, connect, service) == Raises(TypeError) &&
      ScanPort(descriptions, host, port, connect, service) == None
    ensures connect.Returned? ==>
      ScanPortAsWritten(descriptions, host, port, connect, service) ==
      Completed(ScanPort(descriptions, host, port, connect, service))
  {
  }

  // ---------------------------------------------------------------------------
  // Descriptions seen by a probe

  /**
   * A row whose stripped first cell is `str(port)` gives the port's
   * description when no later row's port token is `str(port)`: rows with
   * other tokens do not disturb it, but a later "80 TCP" would replace the
   * description of an earlier "80".
   */
  lemma DescribeAfterParse(m: map<string, string>, rows: seq<Row>, i: int, port: int)
    requires 1 <= port <= 65535
    requires 0 <= i < |rows| && |rows[i]| >= 5 && Strip(rows[i][0]) == IntToString(port)
    requires forall j :: i < j < |rows| ==> !Writes(RowEntry(rows[j]), IntToString(port))
    ensures Describe(StoreAll(m, RowEntries(rows)), port) ==
      CleanDescription(rows[i][DescriptionColumn(|rows[i]|)])
  {
    RowEntryOfPort(rows[i], port);
    LastWriteWins(m, RowEntries(rows), i);
  }

  /** A row whose stripped first cell is `str(port)` stores its description under `str(port)`. */
  lemma RowEntryOfPort(row: Row, port: int)
    requires 1 <= port <= 65535
    requires |row| >= 5 && Strip(row[0]) == IntToString(port)
    ensures RowEntry(row) == Some((IntToString(port), CleanDescription(row[DescriptionColumn(|row|)])))
  {
    var key := NatToString(port);
    assert Pow10(5) == 100000;
    NatToStringLength(port, 5);
    PortTokenOfRun(key);
  }

  /** A port that no scraped row names reads as "no description available". */
  lemma DescribeUnnamed(rows: seq<Row>, port: int)
    requires forall j :: 0 <= j < |rows| ==> !Writes(RowEntry(rows[j]), IntToString(port))
    ensures Describe(StoreAll(map[], RowEntries(rows)), port) == NoDescription
  {
    UnwrittenKeyUnchanged(map[], RowEntries(rows), IntToString(port));
  }
}
