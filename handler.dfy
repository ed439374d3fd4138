/**
 * The `query` request handler of server/src/main.rs, with the connection pool
 * and the database replaced by the replies they give.
 */
module Handler {
  import Wrappers
  import opened Messages

  /** The JSON body of a 200 reply. */
  datatype Response =
    | Success(lastUpdated: string, columnNames: seq<string>, rows: seq<seq<string>>)
    | Error(message: string)

  /** What the handler answers: 503 with no body, a server error, or 200 with a body. */
  datatype Outcome = Unavailable | InfraError | Ok(body: Response)

  /** A statement sent over the checked-out connection. */
  datatype Statement =
    | MetadataQuery            // SELECT last_updated FROM metadata
    | SimpleQuery(text: string) // the client's raw text, sent as is

  /** The HTTP status of an outcome; a `HandlerError` is answered with 500. */
  function StatusCode(o: Outcome): int {
    match o
    case Unavailable => 503
    case InfraError => 500
    case Ok(_) => 200
  }

  /**
   * Handles one request for the raw SQL text `query`.
   * `acquired` says whether the pool handed out a connection; `metadata` is the
   * reply to the metadata query (its rows' timestamps, already formatted);
   * `reply` is what the database answers to the client's text, should it be sent.
   * Besides the outcome, `sent` lists the statements sent, in order.
   */
  method Query(acquired: bool, metadata: Wrappers.Result<seq<string>, string>, query: string,
               reply: Wrappers.Result<seq<Msg>, string>)
    returns (o: Outcome, sent: seq<Statement>)
    // infrastructure failures: no connection, or the metadata query failed
    ensures o == InfraError <==> !acquired || metadata.Failure?
    // no metadata row: 503, whatever the client asked
    ensures o == Unavailable <==> acquired && metadata.Success? && metadata.value == []
    // a failed client query: 200 with its error text
    ensures o.Ok? && o.body.Error? <==>
      acquired && metadata.Success? && metadata.value != [] && reply.Failure?
    ensures o.Ok? && o.body.Error? ==> o.body.message == reply.error
    // otherwise: 200 with the first timestamp, the column names and the rows
    ensures o.Ok? && o.body.Success? <==>
      acquired && metadata.Success? && metadata.value != [] && reply.Success?
    ensures o.Ok? && o.body.Success? ==>
      o.body.lastUpdated == metadata.value[0] &&
      o.body.columnNames == ColumnNames(reply.value) &&
      o.body.rows == ReadRows(reply.value)
    // the client's text is sent exactly when the answer is a 200, and after the metadata query
    ensures SimpleQuery(query) in sent <==> StatusCode(o) == 200
    ensures sent == if !acquired then []
                    else if metadata.Failure? || metadata.value == [] then [MetadataQuery]
                    else [MetadataQuery, SimpleQuery(query)]
  {
    sent := [];
    if !acquired {
      return InfraError, sent;
    }
    sent := sent + [MetadataQuery];
    if metadata.Failure? {
      return InfraError, sent;
    }
    var lastUpdated;
    if |metadata.value| > 0 {
      lastUpdated := metadata.value[0];
    } else {
      return Unavailable, sent;
    }
    sent := sent + [SimpleQuery(query)];
    if reply.Failure? {
      return Ok(Error(reply.error)), sent;
    }
    var resp := reply.value;
    var columnNames: seq<string> := [];
    if |resp| > 0 && resp[0].RowDescription? {
      columnNames := resp[0].names;
    }
    var rows := ReadRows(resp);
    return Ok(Success(lastUpdated, columnNames, rows)), sent;
  }
}
