/** The click store: the JSON document that `load_data` reads back and the
    rows that `save_data` writes to the CSV export. File access and the
    JSON and CSV libraries are not modelled; a load arrives as its outcome
    and an export as its list of rows. */
module Store {
  import opened Wrappers

  /** One logged visit. A record read back from the JSON file may lack the
      user agent, which the export tolerates. */
  datatype Click = Click(ip: string, timestamp: string, userAgent: Option<string>)

  /** A decoded JSON document: an object whose "clicks" entry is the list
      of click records, or a JSON value on which looking up "clicks" fails
      (one that is not an object, or an object without that key). */
  datatype Document = ClickLogDoc(clicks: seq<Click>) | OtherJson

  /** What reading the JSON file gave: no file, an I/O failure, text that is
      not valid JSON, bytes that are not valid text in the file's encoding,
      or a decoded document. */
  datatype LoadOutcome = Missing | Unreadable | NotJson | BadEncoding | Decoded(doc: Document)

  /** `load_data()['clicks']`: the click log, or None where the source
      raises instead (a decoding error `load_data` does not catch, or a
      document without a "clicks" key), which the web server answers with a
      server error. A missing file, an I/O failure or invalid JSON yields
      the empty log. */
  function LoadClicks(stored: LoadOutcome): (log: Option<seq<Click>>)
    ensures stored.Missing? || stored.Unreadable? || stored.NotJson? ==> log == Some([])
    ensures stored.BadEncoding? ==> log == None
    ensures stored.Decoded? && stored.doc.ClickLogDoc? ==> log == Some(stored.doc.clicks)
    ensures stored.Decoded? && stored.doc.OtherJson? ==> log == None
  {
    match stored
    case Missing => Some([])
    case Unreadable => Some([])
    case NotJson => Some([])
    case BadEncoding => None
    case Decoded(ClickLogDoc(clicks)) => Some(clicks)
    case Decoded(OtherJson) => None
  }

  type Row = seq<string>

  const Header: Row := ["IP Address", "Timestamp", "User Agent"]

  /** The export's stand-in for a record without a user agent. */
  const MissingAgent := "N/A"

  /** The CSV row of one click, column by column under `Header`. */
  function RowOf(c: Click): (row: Row)
    ensures |row| == |Header| && row[0] == c.ip && row[1] == c.timestamp
    ensures c.userAgent.Some? ==> row[2] == c.userAgent.value
    ensures c.userAgent.None? ==> row[2] == MissingAgent
  {
    [c.ip, c.timestamp, c.userAgent.GetOr(MissingAgent)]
  }

  /** The rows of the CSV export of `log`: the header, then one row per
      click in log order. */
  function CsvRows(log: seq<Click>): (rows: seq<Row>)
    ensures |rows| == |log| + 1 && rows[0] == Header
  {
    [Header] + seq(|log|, i requires 0 <= i < |log| => RowOf(log[i]))
  }

  /** The row construction of `save_data`: the header row, then the loop
      that writes one row per click. */
  method ExportRows(log: seq<Click>) returns (rows: seq<Row>)
    ensures rows == CsvRows(log)
  {
    rows := [Header];
    for i := 0 to |log|
      invariant |rows| == i + 1 && rows[0] == Header
      invariant forall j | 0 <= j < i :: rows[j + 1] == RowOf(log[j])
    {
      rows := rows + [RowOf(log[i])];
    }
  }

  /** `log` with every missing user agent replaced by the export's
      stand-in: what the export says about each click. */
  function FillAgents(log: seq<Click>): (filled: seq<Click>)
    ensures |filled| == |log|
  {
    seq(|log|, i requires 0 <= i < |log| => log[i].(userAgent := Some(log[i].userAgent.GetOr(MissingAgent))))
  }

  /** Reads an export back: a header row and three-field data rows give the
      clicks they describe, anything else gives None. */
  function ReadRows(rows: seq<Row>): (log: Option<seq<Click>>) {
    if |rows| == 0 || rows[0] != Header || exists i | 1 <= i < |rows| :: |rows[i]| != 3 then None
    else Some(seq(|rows| - 1, i requires 0 <= i < |rows| - 1 => Click(rows[i + 1][0], rows[i + 1][1], Some(rows[i + 1][2]))))
  }

  /** The export and the log agree row by row: reading the export back
      gives every click of the log, in order, with its user agent or the
      stand-in. */
  lemma ExportReadsBack(log: seq<Click>)
    ensures ReadRows(CsvRows(log)) == Some(FillAgents(log))
  {
    var rows := CsvRows(log);
    assert forall i | 1 <= i < |rows| :: rows[i] == RowOf(log[i - 1]);
    var read := seq(|rows| - 1, i requires 0 <= i < |rows| - 1 => Click(rows[i + 1][0], rows[i + 1][1], Some(rows[i + 1][2])));
    assert ReadRows(rows) == Some(read);
    assert forall i | 0 <= i < |log| :: read[i] == FillAgents(log)[i];
    assert read == FillAgents(log);
  }

  /** Records that all carry a user agent, as every record the tracker
      writes does, are recovered exactly from the export. */
  lemma ExportReadsBackExactly(log: seq<Click>)
    requires forall i | 0 <= i < |log| :: log[i].userAgent.Some?
    ensures ReadRows(CsvRows(log)) == Some(log)
  {
    ExportReadsBack(log);
    assert FillAgents(log) == log;
  }
}
