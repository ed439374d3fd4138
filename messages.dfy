/**
 * The reply of a PostgreSQL simple query, and how the handler in
 * server/src/main.rs turns it into column names and text rows.
 */
module Messages {
  import opened Wrappers

  /** One message of a simple-query reply, in the order the server sends them. */
  datatype Msg =
    | RowDescription(names: seq<string>)   // the column names of one statement's result
    | Row(cells: seq<Option<string>>)      // one data row; None is SQL NULL
    | Other                                // CommandComplete and every other message kind

  /** The text of one cell: NULL is shown as the empty string. */
  function CellText(cell: Option<string>): string {
    cell.UnwrapOr("")
  }

  /** The text row `row_to_strings` produces, one string per cell. */
  function RenderedRow(cells: seq<Option<string>>): (r: seq<string>)
    ensures |r| == |cells|
  {
    if cells == [] then [] else [CellText(cells[0])] + RenderedRow(cells[1..])
  }

  /** Each rendered cell stays at its index: NULL becomes "", any other value is copied. */
  lemma {:induction false} RenderedRowAt(cells: seq<Option<string>>, i: nat)
    requires i < |cells|
    ensures RenderedRow(cells)[i] == (if cells[i].None? then "" else cells[i].value)
  {
    if i > 0 {
      RenderedRowAt(cells[1..], i - 1);
    }
  }

  /** `row_to_strings`: fills a vector by pushing the text of cell 0, 1, ... in turn. */
  method RowToStrings(cells: seq<Option<string>>) returns (r: seq<string>)
    ensures |r| == |cells|
    ensures forall i :: 0 <= i < |cells| ==> r[i] == (if cells[i].None? then "" else cells[i].value)
    ensures r == RenderedRow(cells)
  {
    r := [];
    for i := 0 to |cells|
      invariant |r| == i
      invariant forall j :: 0 <= j < i ==> r[j] == (if cells[j].None? then "" else cells[j].value)
    {
      r := r + [cells[i].UnwrapOr("")];
    }
    forall i | 0 <= i < |cells| ensures r[i] == RenderedRow(cells)[i] {
      RenderedRowAt(cells, i);
    }
  }

  /** `read_rows`: the rendered `Row` messages of a reply; every other message is skipped. */
  function ReadRows(reply: seq<Msg>): (rows: seq<seq<string>>)
    ensures |rows| <= |reply|
  {
    if reply == [] then [] else RowsOf(reply[0]) + ReadRows(reply[1..])
  }

  /** What one message contributes to `read_rows`: its rendering if it is a `Row`. */
  function RowsOf(m: Msg): seq<seq<string>> {
    match m
    case Row(cells) => [RenderedRow(cells)]
    case _ => []
  }

  /** The indices at or after `from` that hold a `Row` message, in increasing order. */
  ghost function RowPositions(reply: seq<Msg>, from: nat): (ps: seq<nat>)
    requires from <= |reply|
    ensures forall k :: 0 <= k < |ps| ==> from <= ps[k] < |reply| && reply[ps[k]].Row?
    ensures forall k, l :: 0 <= k < l < |ps| ==> ps[k] < ps[l]
    ensures forall i :: from <= i < |reply| && reply[i].Row? ==> i in ps
    decreases |reply| - from
  {
    if from == |reply| then []
    else (if reply[from].Row? then [from] else []) + RowPositions(reply, from + 1)
  }

  lemma {:induction false} ReadRowsFrom(reply: seq<Msg>, from: nat)
    requires from <= |reply|
    ensures var ps := RowPositions(reply, from);
      |ReadRows(reply[from..])| == |ps| &&
      forall k :: 0 <= k < |ps| ==> ReadRows(reply[from..])[k] == RenderedRow(reply[ps[k]].cells)
    decreases |reply| - from
  {
    if from < |reply| {
      ReadRowsFrom(reply, from + 1);
      assert reply[from..][1..] == reply[from + 1..];
    }
  }

  /**
   * `read_rows` yields exactly one row per `Row` message, in the order of the
   * messages: output row k is the rendering of the k-th `Row` message.
   */
  lemma OneRowPerRowMessage(reply: seq<Msg>)
    ensures var ps := RowPositions(reply, 0);
      |ReadRows(reply)| == |ps| &&
      (forall k :: 0 <= k < |ps| ==> reply[ps[k]].Row? && ReadRows(reply)[k] == RenderedRow(reply[ps[k]].cells)) &&
      (forall k, l :: 0 <= k < l < |ps| ==> ps[k] < ps[l]) &&
      (forall i :: 0 <= i < |reply| ==> (reply[i].Row? <==> i in ps))
  {
    ReadRowsFrom(reply, 0);
    assert reply[0..] == reply;
  }

  /** Reading the rows of two replies back to back is reading each in turn. */
  lemma {:induction false} ReadRowsAppend(a: seq<Msg>, b: seq<Msg>)
    ensures ReadRows(a + b) == ReadRows(a) + ReadRows(b)
  {
    if a == [] {
      assert a + b == b;
    } else {
      calc {
        ReadRows(a + b);
        { assert (a + b)[0] == a[0] && (a + b)[1..] == a[1..] + b; }
        RowsOf(a[0]) + ReadRows(a[1..] + b);
        { ReadRowsAppend(a[1..], b); }
        RowsOf(a[0]) + (ReadRows(a[1..]) + ReadRows(b));
      }
    }
  }

  /** A message other than `Row` adds nothing, wherever it stands. */
  lemma NonRowAddsNothing(a: seq<Msg>, m: Msg, b: seq<Msg>)
    requires !m.Row?
    ensures ReadRows(a + [m] + b) == ReadRows(a) + ReadRows(b)
  {
    ReadRowsAppend(a + [m], b);
    ReadRowsAppend(a, [m]);
    assert [m][1..] == [];
    assert ReadRows([m]) == [];
  }

  /** A reply yields no rows exactly when it holds no `Row` message. */
  lemma {:induction false} NoRowsIff(reply: seq<Msg>)
    ensures ReadRows(reply) == [] <==> forall i :: 0 <= i < |reply| ==> !reply[i].Row?
  {
    if reply != [] {
      NoRowsIff(reply[1..]);
      if !reply[0].Row? {
        forall i | 0 < i < |reply| ensures reply[i] == reply[1..][i - 1] { }
      }
    }
  }

  /** When every `Row` message has `width` cells, so does every output row. */
  lemma RowWidths(reply: seq<Msg>, width: nat)
    requires forall i :: 0 <= i < |reply| && reply[i].Row? ==> |reply[i].cells| == width
    ensures forall k :: 0 <= k < |ReadRows(reply)| ==> |ReadRows(reply)[k]| == width
  {
    OneRowPerRowMessage(reply);
  }

  /**
   * The column names: those of the first message when it is a `RowDescription`,
   * otherwise none (also for an empty reply).
   */
  function ColumnNames(reply: seq<Msg>): (names: seq<string>)
    ensures |reply| > 0 && reply[0].RowDescription? ==> names == reply[0].names
    ensures names != [] ==> |reply| > 0 && reply[0] == RowDescription(names)
  {
    if |reply| > 0 && reply[0].RowDescription? then reply[0].names else []
  }

  /** Only the first message decides the column names; later messages never do. */
  lemma ColumnNamesOnlyFirst(reply: seq<Msg>, later: seq<Msg>)
    requires reply != []
    ensures ColumnNames(reply + later) == ColumnNames(reply)
    ensures ColumnNames(reply) != [] ==> reply[0] == RowDescription(ColumnNames(reply))
  {
    assert (reply + later)[0] == reply[0];
  }

  /**
   * Column names and row widths are not tied together: a two-statement reply
   * whose first statement returns no rows yields no column names but a row.
   */
  lemma ColumnsMayDisagreeWithRows()
    ensures var reply := [Other, RowDescription(["n"]), Row([Some("1")]), Other];
      ColumnNames(reply) == [] && ReadRows(reply) == [["1"]]
  {
    var reply := [Other, RowDescription(["n"]), Row([Some("1")]), Other];
    var tail := [Row([Some("1")]), Other];
    assert [Other][1..] == [];
    assert ReadRows([Other]) == [];
    assert tail[1..] == [Other];
    assert RenderedRow([Some("1")]) == ["1"] by {
      assert [Some("1")][1..] == [];
    }
    assert ReadRows(tail) == [["1"]];
    assert reply[1..][1..] == tail;
    assert ReadRows(reply) == ReadRows(reply[1..]) == ReadRows(tail);
  }
}
