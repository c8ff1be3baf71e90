/** The logging side of `filtered_logger.py`: the PII field list, the log
    record whose message the formatter rewrites, the `RedactingFormatter`
    itself, and the path of one database row from `format_row` to a log
    line. The clock that stamps a record is a parameter (`asctime`). */
module Logging {
  import opened Redaction
  import opened RowFormat

  /** `PII_FIELDS`: the columns of the users table treated as personal data. */
  const PII_FIELDS: seq<string> := ["name", "email", "phone", "ssn", "password"]

  /** `RedactingFormatter.REDACTION`. */
  const REDACTION: string := "***"

  /** `RedactingFormatter.SEPARATOR`. */
  const SEPARATOR: string := ";"

  /** The logger name and level `main` gives the records it builds. */
  const ROW_LOGGER: string := "user_data"
  const INFO: string := "INFO"

  /** `%(asctime)-15s`: the text, left-justified and padded with spaces to
      at least `width` characters. */
  function PadRight(s: string, width: nat): (r: string)
    ensures |r| == if |s| < width then width else |s|
    ensures r[..|s|] == s
    ensures forall j :: |s| <= j < |r| ==> r[j] == ' '
  {
    if |s| >= width then s else s + seq(width - |s|, _ => ' ')
  }

  /** The line `FORMAT` yields:
      `[HOLBERTON] %(name)s %(levelname)s %(asctime)-15s: %(message)s`. */
  function Render(name: string, levelname: string, asctime: string, message: string): (line: string)
    ensures |line| >= 12 + |message| && line[..12] == "[HOLBERTON] "
    ensures line[|line| - |message|..] == message
  {
    var head := "[HOLBERTON] " + name + " " + levelname + " " + PadRight(asctime, 15) + ": ";
    assert (head + message)[..12] == head[..12];
    head + message
  }

  /** The parts of a `logging.LogRecord` the format reads. `msg` is
      rewritten in place by the formatter. */
  class LogRecord {
    var name: string
    var levelname: string
    var msg: string

    constructor (name: string, levelname: string, msg: string)
      ensures this.name == name && this.levelname == levelname && this.msg == msg
    {
      this.name := name;
      this.levelname := levelname;
      this.msg := msg;
    }
  }

  /** `RedactingFormatter`: redacts the record's message, in the record,
      then renders the record with `FORMAT`. */
  class RedactingFormatter {
    var fields: seq<string>

    /** The field names can stand for themselves inside the pattern. */
    predicate Valid()
      reads this
    {
      AllFieldNames(fields)
    }

    constructor (fields: seq<string>)
      requires AllFieldNames(fields)
      ensures this.fields == fields && Valid()
    {
      this.fields := fields;
    }

    /** `format(record)`: sets `record.msg` to its redaction and returns the
        rendered line. Only `record.msg` changes; the name, the level and
        the formatter's fields are kept. The new message is a fixed point:
        formatting the same record again gives the same message. */
    method Format(record: LogRecord, asctime: string) returns (line: string)
      requires Valid()
      modifies record`msg
      ensures record.msg == FilterDatum(fields, REDACTION, old(record.msg), SEPARATOR)
      ensures record.name == old(record.name) && record.levelname == old(record.levelname)
      ensures fields == old(fields)
      ensures line == Render(record.name, record.levelname, asctime, record.msg)
      ensures FilterDatum(fields, REDACTION, record.msg, SEPARATOR) == record.msg
    {
      record.msg := FilterDatum(fields, REDACTION, record.msg, SEPARATOR);
      FilterDatumIdempotent(fields, REDACTION, old(record.msg), SEPARATOR);
      line := Render(record.name, record.levelname, asctime, record.msg);
    }
  }

  /** One iteration of `main`'s loop: the row is formatted, wrapped in a
      record of the `user_data` logger at level INFO, and handed to the
      formatter the logger's handler uses. */
  method LogRow(formatter: RedactingFormatter, row: seq<Value>, headers: seq<string>, asctime: string)
    returns (line: string)
    requires formatter.Valid()
    ensures line == Render(ROW_LOGGER, INFO, asctime,
                           FilterDatum(formatter.fields, REDACTION, FormatRow(row, headers), SEPARATOR))
  {
    var message := FormatRow(row, headers);
    var record := new LogRecord(ROW_LOGGER, INFO, message);
    line := formatter.Format(record, asctime);
  }

  /** Every PII field name is a plain name. */
  lemma PiiFieldsAreNames()
    ensures AllFieldNames(PII_FIELDS)
  {
    forall k | 0 <= k < |PII_FIELDS|
      ensures IsFieldName(PII_FIELDS[k])
    {
    }
  }

  /** Under `PII_FIELDS`, every non-empty value of a PII column is replaced
      by `***`, whatever (`=`- and `;`-free) text it holds. */
  lemma {:induction false} PiiValuesRedacted(f: string, value: string)
    requires f in PII_FIELDS && Plain(value) && value != []
    ensures FilterDatum(PII_FIELDS, REDACTION, f + "=" + value, SEPARATOR) == f + "=" + REDACTION
  {
    PiiFieldsAreNames();
    assert Plain(f);
    FilterDatumPair(PII_FIELDS, REDACTION, f, value, SEPARATOR);
    assert f[0..] == f;
  }

  // ---------------------------------------------------------------------
  // A row message under the redaction

  lemma JoinRegroup(a: string, b: string)
    ensures a + RowSeparator + b == a + ";" + (" " + b)
  {
  }

  /** The redaction of parts joined by `"; "` is the parts' redactions
      joined by `"; "`: the `;` stops every value and the space is copied. */
  lemma {:induction false} ScanJoin(alts: seq<string>, redaction: string, parts: seq<string>)
    requires AllFieldNames(alts)
    ensures Scan(alts, redaction, Join(RowSeparator, parts)) == Join(RowSeparator, ScanEach(alts, redaction, parts))
    decreases |parts|
  {
    if |parts| > 1 {
      var rest := Join(RowSeparator, parts[1..]);
      JoinRegroup(parts[0], rest);
      ScanStopsAtSemicolon(alts, redaction, parts[0], " " + rest, 0);
      assert !IsNameChar(' ');
      ScanCopiesSeparatorChar(alts, redaction, ' ', rest);
      ScanJoin(alts, redaction, parts[1..]);
      assert ScanEach(alts, redaction, parts)[1..] == ScanEach(alts, redaction, parts[1..]);
      JoinRegroup(Scan(alts, redaction, parts[0]), Join(RowSeparator, ScanEach(alts, redaction, parts[1..])));
    } else if |parts| == 0 {
      assert Scan(alts, redaction, "") == "";
    }
  }

  /** What a row's log message becomes: each `header=value` field is
      redacted on its own (`RedactedPair`: the value goes when it is not
      empty and the header ends with one of the fields) and the `"; "`
      separators stay, provided no header or shown value holds `=` or `;`. */
  lemma {:induction false} RedactRow(fields: seq<string>, redaction: string, row: seq<Value>, headers: seq<string>, separator: string)
    requires AllFieldNames(fields)
    requires forall j :: 0 <= j < |headers| ==> Plain(headers[j])
    requires forall j :: 0 <= j < |row| ==> Plain(Show(row[j]))
    ensures FilterDatum(fields, redaction, FormatRow(row, headers), separator)
         == Join(RowSeparator, RedactedPairs(Alternatives(fields), redaction, RowPairs(row, headers)))
  {
    var alts := Alternatives(fields);
    var pairs := RowPairs(row, headers);
    ScanJoin(alts, redaction, RowFields(row, headers));
    ScanEachPair(alts, redaction, pairs);
  }
}
