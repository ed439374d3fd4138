# distance-db-frontend server: query handler model

A Dafny model of the request handler in `server/src/main.rs` of the
distance-db-frontend server. The server answers `GET /?query=<sql>` by reading a
freshness timestamp from the `metadata` table, sending the client's SQL text to
PostgreSQL as a simple query, and returning JSON: either
`Success { lastUpdated, columnNames, rows }` or `Error(message)`. It also picks
its listening port from the `PORT` environment variable.

The model has four modules:

- `Wrappers` (`wrappers.dfy`): `Option` and `Result`, standing in for Rust's.
- `Messages` (`messages.dfy`): the simple-query reply as a sequence of `Msg`
  (`RowDescription`, `Row`, `Other`), `read_rows`, `row_to_strings` (a method
  with the source's push loop, proved equal to the function `RenderedRow`), and
  the column-name extraction.
- `Handler` (`handler.dfy`): the `query` handler as a method with the source's
  early returns. The pool and the database are replaced by their replies:
  whether a connection was checked out, the metadata query's reply (its rows'
  timestamps, already formatted as text) and the reply to the client's text.
  The method also returns the statements it sent, in order, so "the client's
  query is never sent" is part of its contract.
- `Port` (`port.dfy`): `trim`, `u16` parsing and the default port 11265.

The handler stages nothing and opens no transaction: the raw text goes
straight to `simple_query` (server/src/main.rs:99). Column names come only from
the first message of the reply, while rows are gathered from every `Row`
message, so rows need not have as many cells as there are column names
(`ColumnsMayDisagreeWithRows`).

## Model

| member | source | states |
|---|---|---|
| `Messages.RenderedRow` | server/src/main.rs:133-140 | The rendered row has exactly one string per cell of the row. |
| `Messages.RenderedRowAt` | server/src/main.rs:135-137 | Cell i of the rendering is "" when cell i is NULL and otherwise the cell's text, unchanged, at the same index. |
| `Messages.RowToStrings` | server/src/main.rs:133-140 | The push loop over indices 0..len yields one string per cell, NULL as "" and other cells copied at the same index; the result equals `RenderedRow`. |
| `Messages.ReadRows` | server/src/main.rs:120-131 | `read_rows` never yields more rows than the reply has messages. |
| `Messages.OneRowPerRowMessage` | server/src/main.rs:120-131 | Output row k is the rendering of the k-th `Row` message; the `Row` positions are increasing and are exactly the indices holding a `Row`, so there is one output row per `Row` message, in order. |
| `Messages.ReadRowsAppend` | server/src/main.rs:120-131 | Reading the rows of a concatenated reply is reading each part in turn. |
| `Messages.NonRowAddsNothing` | server/src/main.rs:123-128 | A `RowDescription` or other non-`Row` message anywhere in the reply contributes no row. |
| `Messages.NoRowsIff` | server/src/main.rs:121-130 | `read_rows` is empty if and only if the reply holds no `Row` message. |
| `Messages.RowWidths` | server/src/main.rs:120-140 | When every `Row` message has w cells, every output row has w strings. |
| `Messages.ColumnNames` | server/src/main.rs:106-109 | When the first message is a `RowDescription` the column names are its names, in order; otherwise (also for an empty reply) they are empty, and non-empty names always come from a first `RowDescription`. |
| `Messages.ColumnNamesOnlyFirst` | server/src/main.rs:106-109 | Messages after the first never change the column names; non-empty column names are the names of a `RowDescription` that is the first message. |
| `Messages.ColumnsMayDisagreeWithRows` | server/src/main.rs:106-111 | A reply whose first message is not a `RowDescription` yields no column names yet can yield rows. |
| `Handler.Query` | server/src/main.rs:84-118 | No connection or a failed metadata query gives a server error; no metadata row gives 503 and the client text is never sent; a failed client query gives 200 with `Error` carrying its message; otherwise 200 with `Success` holding the first timestamp, the first message's column names and `read_rows` of the reply. The client text is sent, after the metadata query, exactly when the status is 200. |
| `Port.TrimStart` | server/src/main.rs:50 | The result is a suffix of the input, starts with no white space, and everything removed was white space. |
| `Port.TrimEnd` | server/src/main.rs:50 | The result is a prefix of the input, ends with no white space, and everything removed was white space. |
| `Port.TrimPadded` | server/src/main.rs:50 | Trimming a string with no white space at its ends, padded with white space on both sides, gives back that string. |
| `Port.Trim` | server/src/main.rs:50 | `str::trim`, white space removed at both ends through `TrimStart` and `TrimEnd`: the result has no white space at either end, and a string without such white space is returned unchanged. |
| `Port.ParseU16` | server/src/main.rs:50 | A successful `u16` parse gives a value of at most 65535. |
| `Port.ParseDecimal` | server/src/main.rs:50 | Parsing the decimal rendering of n gives n exactly when n fits in 16 bits and fails otherwise; a leading '+' changes nothing. |
| `Port.ParseU16Accepts` | server/src/main.rs:50 | A successful parse read an optional '+' followed by one or more digits, and returns their value. |
| `Port.ParseU16Rejects` | server/src/main.rs:50 | A non-digit character anywhere except a leading '+' makes the parse fail, so a '-' sign is refused. |
| `Port.SelectPort` | server/src/main.rs:48-51 | The port is the parsed trimmed `PORT` value when that parse succeeds, otherwise 11265, and always fits in 16 bits. |
| `Port.SelectPortOfPaddedNumber` | server/src/main.rs:48-51 | A `PORT` holding a number padded with white space selects that number when it is at most 65535, and 11265 otherwise. |

## Left out

- The actix-web server, its routing, CORS and compression middleware, `dotenv`, the `DATABASE_URL` lookup and `establish_database_connection` (server/src/main.rs:41-81 apart from the port): process bootstrap and I/O.
- The bb8 pool and the tokio-postgres calls, and all async/await: network I/O. Each is replaced by the reply it gives: a flag for the pool checkout, the metadata query's rows or error, and the simple query's messages or error.
- The reasons a pool checkout or metadata query fails, and `HandlerError` with its `From` conversion (server/src/main.rs:142-154): all of these become the single `InfraError` outcome, answered with status 500.
- Handler.Query: a NULL or non-`timestamptz` `last_updated` value makes `row.get::<_, DateTime<Utc>>(0)` panic at server/src/main.rs:93, so the source never answers 200 on such input; the model takes the metadata rows as already-formatted text and cannot represent that outcome, so its contract promises a 200 whenever there is a metadata row.
- chrono's `to_rfc3339` formatting of the timestamp: the metadata rows are given as already-formatted text, and the model takes the first row's text as it is.
- The `Display` text of a tokio-postgres error: the failure message is an opaque string that the handler passes through unchanged.
- serde's JSON encoding of `Response` and the HTTP response builders: `Response` and `Outcome` are datatypes, and `StatusCode` gives the status.
- The browser front end (`src/index.ts`, `src/DBGrid.ts`, `src/editor.ts`): DOM, editor and grid code built on libraries that are not part of this model.
- Text encoding: `env::var` fails on a value that is not valid Unicode, which the model folds into an absent `PORT` (`None`). Strings are sequences of characters with no byte encoding.
