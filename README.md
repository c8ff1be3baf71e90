# PII redaction in `filtered_logger.py`, modelled in Dafny

The repository's personal-data logger keeps personally identifiable
information out of log lines. Its core is `filter_datum`, which rewrites
every `field=value` of a log message whose field is one of a given list to
`field=<redaction>`. `RedactingFormatter` is a `logging.Formatter` that runs
`filter_datum` over each record's message before rendering it, and
`format_row` turns a database row into a `header=value; header=value`
message.

The project has four modules, one file each:

- `redaction.dfy` — `Redaction`: `filter_datum`. The pattern
  `(f1|...|fn)=([^;]+)` together with `re.sub` is modelled as a
  left-to-right scan (`ScanFrom`):
  - at each position the field names are tried in list order;
  - the first name followed by `=` and a character other than `;` wins;
  - the greedy `[^;]+` takes everything up to the next `;` or the end of
    the message (`RunEnd`);
  - `name=` plus the redaction text is emitted and the scan resumes after
    the value;
  - where no name matches, one character is copied.

  The lemmas cover:
  - how the scan copies unmatched text;
  - where a value ends;
  - that it works on `;`-separated parts independently;
  - what it does to one `key=value` pair;
  - that it is idempotent.
- `row_format.dfy` — `RowFormat`: `format_row`, with Python's `zip` and
  `"; ".join`. `Split` cuts a text at `"; "` and is the inverse of the join.
- `logging.dfy` — `Logging`:
  - `PII_FIELDS`, and the formatter's constants `REDACTION`, `SEPARATOR`
    and `FORMAT` (as `Render`);
  - a `LogRecord` class whose `msg` the formatter rewrites in place;
  - the `RedactingFormatter` class;
  - one iteration of `main`'s loop (`LogRow`);
  - the lemma `RedactRow`, which gives what a formatted row turns into
    under the redaction.
- `scenarios.dfy` — `Scenarios`: worked examples, each proved:
  - the two sample messages and the sample record kept at the end of the
    file;
  - unanchored matching (`surname` under `name`, and a field name inside
    a value);
  - an empty value;
  - a separator other than `;`;
  - an empty field list;
  - a users-table row with a `NULL` column.

Where the code behaves differently from what a reader of the names would
expect, the model follows the code:
- the `separator` argument is never used, because `;` is hard-coded in
  the pattern;
- a field matches at the end of any longer key (`surname=` under `name`);
- a field also matches inside a value: under `name`, `a=name=x;` becomes
  `a=name=***;`, where only `key=value` pairs would be expected to be
  redacted;
- an empty field list builds the group `()`, which matches before every
  `=`, so every non-empty value is redacted rather than none;
- a `NULL` column is rendered as `None`, because that is what the f-string
  does.

## Model

| member | source | states |
|---|---|---|
| Redaction.Alternatives | 0x00-personal_data/filtered_logger.py:20 | the alternation group of the field names, with the empty group `()` for an empty field list; its behaviour is stated by `EmptyAlternativeEveryKey` and `FilterDatumNoFields` |
| Redaction.MatchesAt | 0x00-personal_data/filtered_logger.py:20 | one alternative, then `=`, then a character other than `;`; stated by `FirstAlternativeMatches`, `NoMatchAtSeparator` and `ValueRun` |
| Redaction.FirstFrom | 0x00-personal_data/filtered_logger.py:20 | alternation tried in list order; stated by `FirstAlternativeMatches`, `FirstAlternativeIsFirst` and `NoAlternative` |
| Redaction.FirstAlternative | 0x00-personal_data/filtered_logger.py:20 | the alternative taken at a position, or none; stated by `FirstAlternativeMatches`, `FirstAlternativeIsFirst` and `NoAlternative` |
| Redaction.ScanFrom | 0x00-personal_data/filtered_logger.py:21 | `re.sub` from a position on; stated by `ScanCopiesUnmatched`, `LeftmostMatch`, `ScanShift` and `ScanStopsAtSemicolon` |
| Redaction.Scan | 0x00-personal_data/filtered_logger.py:21 | `re.sub` over the whole message; stated by `ScanTerminated`, `ScanEachPair` and `ScanFromIdempotent` |
| Redaction.FilterDatum | 0x00-personal_data/filtered_logger.py:19-21 | `filter_datum`; stated by `FilterDatumPassthrough`, `FilterDatumSplitsAtSemicolon`, `FilterDatumPair`, `FilterDatumIdempotent`, `FilterDatumTerminatedPairs` and `FilterDatumNoFields` |
| Redaction.FirstAlternativeMatches | 0x00-personal_data/filtered_logger.py:20 | the alternative the pattern takes at a position is followed there by `=` and a character other than `;` |
| Redaction.FirstAlternativeIsFirst | 0x00-personal_data/filtered_logger.py:20 | no field listed before the one taken matches at that position: alternatives are tried in list order |
| Redaction.NoAlternative | 0x00-personal_data/filtered_logger.py:20 | when no field matches at a position, no alternative is taken there |
| Redaction.NoMatchAtSeparator | 0x00-personal_data/filtered_logger.py:20 | no match starts at a character that is neither `=` nor a name character, such as `;` or a space |
| Redaction.RunEnd | 0x00-personal_data/filtered_logger.py:20 | the value run stops at the first `;` after its start, or at the end of the message |
| Redaction.ValueRun | 0x00-personal_data/filtered_logger.py:20 | a value that starts with a non-`;` character is a non-empty run holding no `;`, ended by `;` or the end of the message |
| Redaction.RunEndAt | 0x00-personal_data/filtered_logger.py:20 | a `;`-free stretch followed by `;` or the end is exactly the value run: the value is maximal |
| Redaction.ScanCopiesUnmatched | 0x00-personal_data/filtered_logger.py:21 | text where no field matches is copied verbatim and in order |
| Redaction.LeftmostMatch | 0x00-personal_data/filtered_logger.py:20-21 | up to the leftmost match the text is copied; the match `f=value` becomes `f=` plus the redaction inserted literally, and the scan resumes after the value |
| Redaction.FilterDatumPassthrough | 0x00-personal_data/filtered_logger.py:19-21 | a message in which no field is followed by `=` and a non-`;` character comes back unchanged |
| Redaction.NoValuePassthrough | 0x00-personal_data/filtered_logger.py:19-21 | a message with no `=`, or whose every `=` is followed by `;`, comes back unchanged whatever the fields |
| Redaction.ScanShift | 0x00-personal_data/filtered_logger.py:21 | the scan does not look back: scanning a suffix inside a longer text gives what scanning it alone gives |
| Redaction.ScanCopiesSeparatorChar | 0x00-personal_data/filtered_logger.py:21 | a leading `;` or space is copied and the rest is redacted on its own |
| Redaction.ScanStopsAtSemicolon | 0x00-personal_data/filtered_logger.py:20-21 | scanning `p;t` scans `p` alone, keeps the `;`, and scans `t` alone: no value reaches past a `;` |
| Redaction.FilterDatumSplitsAtSemicolon | 0x00-personal_data/filtered_logger.py:19-21 | `filter_datum` of `p;t` is `filter_datum` of `p`, then `;`, then `filter_datum` of `t` |
| Redaction.ScanPairFrom | 0x00-personal_data/filtered_logger.py:20-21 | from any position in the key of `key=value`, the key's rest and `=` are kept, and the value becomes the redaction exactly when it is non-empty and a suffix of the key's rest is a field |
| Redaction.SuffixFromExists | 0x00-personal_data/filtered_logger.py:20 | the recursive suffix test holds exactly when some suffix of the key from that position is one of the fields |
| Redaction.KeyIsAlternative | 0x00-personal_data/filtered_logger.py:20 | a key that is itself a field ends with a field |
| Redaction.EmptyAlternativeEveryKey | 0x00-personal_data/filtered_logger.py:20 | with the empty group (empty field list) every key ends with a field |
| Redaction.KeyShorterThanAlternatives | 0x00-personal_data/filtered_logger.py:20 | a key shorter than every field ends with none of them |
| Redaction.FilterDatumPair | 0x00-personal_data/filtered_logger.py:19-21 | on one `key=value`, the key is kept and the value is redacted if and only if it is non-empty and some suffix of the key is a field (the empty list counting as the empty name) |
| Redaction.EmptyMatchIdempotent | 0x00-personal_data/filtered_logger.py:20-21 | with an empty redaction an emitted `f=` followed by `;` or nothing is copied unchanged by a second pass |
| Redaction.ScanFromIdempotent | 0x00-personal_data/filtered_logger.py:20-21 | the scan's output, from any position, scans to itself when the redaction is `;`-free, the empty redaction included |
| Redaction.FilterDatumIdempotent | 0x00-personal_data/filtered_logger.py:19-21 | applying `filter_datum` to its own output returns that output, for any valid fields and any `;`-free redaction |
| Redaction.ScanTerminated | 0x00-personal_data/filtered_logger.py:20-21 | a message of `;`-terminated parts is redacted part by part and keeps every `;` |
| Redaction.ScanEachPair | 0x00-personal_data/filtered_logger.py:20-21 | scanning each `key=value` text alone gives each pair's redaction |
| Redaction.FilterDatumTerminatedPairs | 0x00-personal_data/filtered_logger.py:19-21 | `filter_datum` of `k1=v1;...;kn=vn;` is the list of redacted pairs, each still ended by `;`: the number and order of pairs and every key are kept |
| Redaction.FilterDatumNoFields | 0x00-personal_data/filtered_logger.py:20 | with an empty field list every non-empty value is redacted, whatever its key |
| RowFormat.Show | 0x00-personal_data/filtered_logger.py:73 | the f-string's rendering of a value, `None` for SQL `NULL`; stated by `RowPairs` and `UserRowRedacted` |
| RowFormat.Join | 0x00-personal_data/filtered_logger.py:73 | `"; ".join`; stated by `JoinStartsWithFirst`, `JoinEndsWithLast` and `SplitJoin` |
| RowFormat.FormatRow | 0x00-personal_data/filtered_logger.py:69-73 | `format_row`; stated by `FormatRowEmpty`, `FormatRowEnds`, `FormatRowSplits` and `RedactRow` |
| RowFormat.RowPairs | 0x00-personal_data/filtered_logger.py:73 | a row yields exactly min(headers, values) pairs `(header, value)`, in header order |
| RowFormat.Zip | 0x00-personal_data/filtered_logger.py:73 | `zip` pairs equal indices up to the shorter input |
| RowFormat.RowFields | 0x00-personal_data/filtered_logger.py:73 | a row yields exactly min(headers, values) texts `header=value`, in header order |
| RowFormat.SplitWhole | 0x00-personal_data/filtered_logger.py:73 | a text with no `;` is a single part |
| RowFormat.SplitFirst | 0x00-personal_data/filtered_logger.py:73 | cutting `p; t` with `p` `;`-free gives `p` and then the parts of `t` |
| RowFormat.SplitJoin | 0x00-personal_data/filtered_logger.py:73 | cutting at `"; "` undoes the `"; "`-join of non-empty lists of `;`-free parts |
| RowFormat.JoinEndsWithLast | 0x00-personal_data/filtered_logger.py:73 | the joined text ends with the last part: no separator trails |
| RowFormat.JoinStartsWithFirst | 0x00-personal_data/filtered_logger.py:73 | the joined text starts with the first part: no separator leads |
| RowFormat.FormatRowEmpty | 0x00-personal_data/filtered_logger.py:69-73 | `format_row` is `""` if and only if the row or the headers are empty |
| RowFormat.FormatRowEnds | 0x00-personal_data/filtered_logger.py:69-73 | a non-empty row's message starts with its first `header=value` and ends with its last |
| RowFormat.FormatRowSplits | 0x00-personal_data/filtered_logger.py:69-73 | with no `;` in headers and values, the message cut at `"; "` is exactly the row's `header=value` texts |
| Logging.PII_FIELDS | 0x00-personal_data/filtered_logger.py:17 | the five PII columns; stated by `PiiFieldsAreNames`, `PiiValuesRedacted` and `UserRowRedacted` |
| Logging.REDACTION | 0x00-personal_data/filtered_logger.py:26 | the redaction text `***`; used by `RedactingFormatter.Format` |
| Logging.SEPARATOR | 0x00-personal_data/filtered_logger.py:28 | the separator `;` passed to `filter_datum`, which ignores it (`SeparatorIgnored`) |
| Logging.PadRight | 0x00-personal_data/filtered_logger.py:27 | `%(asctime)-15s`: the text, then spaces up to at least 15 characters |
| Logging.Render | 0x00-personal_data/filtered_logger.py:27 | the rendered line starts with `[HOLBERTON] ` and ends with the record's message |
| Logging.LogRecord.constructor | 0x00-personal_data/filtered_logger.py:91-93 | a record holds the given logger name, level and message |
| Logging.RedactingFormatter.constructor | 0x00-personal_data/filtered_logger.py:30-32 | the formatter keeps the fields it is given |
| Logging.RedactingFormatter.Format | 0x00-personal_data/filtered_logger.py:34-36 | `record.msg` becomes `filter_datum(fields, "***", old msg, ";")`; name, level and fields are unchanged; the line is the rendered record; the new message is a fixed point of the redaction |
| Logging.LogRow | 0x00-personal_data/filtered_logger.py:89-94 | one loop iteration logs `Render("user_data", "INFO", time, filter_datum(fields, "***", format_row(row, headers), ";"))` |
| Logging.PiiFieldsAreNames | 0x00-personal_data/filtered_logger.py:17 | every PII field is a plain name |
| Logging.PiiValuesRedacted | 0x00-personal_data/filtered_logger.py:17-21 | under `PII_FIELDS`, `f=value` for any PII field `f` and any non-empty plain value becomes `f=***` |
| Logging.ScanJoin | 0x00-personal_data/filtered_logger.py:20-21 | the redaction of a `"; "`-joined text is the `"; "`-join of the parts' redactions |
| Logging.RedactRow | 0x00-personal_data/filtered_logger.py:73 | a formatted row under the redaction is the `"; "`-join of its pairs, each value redacted if and only if it is non-empty and its header ends with a field |
| Scenarios.SampleKeys | 0x00-personal_data/filtered_logger.py:101 | under `password` and `date_of_birth`, the keys `name` and `email` are kept and `password` and `date_of_birth` are redacted |
| Scenarios.EggMessage | 0x00-personal_data/filtered_logger.py:101-106 | the first sample message becomes `name=egg;email=eggmin@eggsample.com;password=xxx;date_of_birth=xxx;` |
| Scenarios.BobMessage | 0x00-personal_data/filtered_logger.py:101-106 | the second sample message becomes `name=bob;email=bob@dylan.com;password=xxx;date_of_birth=xxx;` |
| Scenarios.NameKeptUnderRecordFields | 0x00-personal_data/filtered_logger.py:111 | no suffix of `name` is `email`, `ssn` or `password` |
| Scenarios.RecordMessage | 0x00-personal_data/filtered_logger.py:109-111 | the sample record's message becomes `name=Bob;email=***;ssn=***;password=***;` |
| Scenarios.RecordLine | 0x00-personal_data/filtered_logger.py:109-112 | formatting the sample record yields the rendered line of `my_logger` at INFO whose message is `name=Bob;email=***;ssn=***;password=***;` |
| Scenarios.SurnameKey | 0x00-personal_data/filtered_logger.py:20 | `surname` ends with `name` |
| Scenarios.SurnameRedacted | 0x00-personal_data/filtered_logger.py:20-21 | under `["name"]`, `surname=Jo;` becomes `surname=***;`: matching is not anchored |
| Scenarios.FieldInsideValueRedacted | 0x00-personal_data/filtered_logger.py:20-21 | under `["name"]`, `a=name=x;` becomes `a=name=***;`: a field name inside a value starts a match |
| Scenarios.EmptyPasswordKept | 0x00-personal_data/filtered_logger.py:20 | `password=;` is left as it is |
| Scenarios.SeparatorIgnored | 0x00-personal_data/filtered_logger.py:19-20 | with separator `,`, `password=x,name=y` becomes `password=***`: the value runs to the end, not to the `,` |
| Scenarios.NoFieldsRedactAll | 0x00-personal_data/filtered_logger.py:20 | under an empty field list `a=1;b=;c=x;` becomes `a=***;b=;c=***;` |
| Scenarios.UserRowRedacted | 0x00-personal_data/filtered_logger.py:17 | under `PII_FIELDS`, the row pairs `name=Bob`, `email=bob@dylan.com`, `ip=None` become `name=***`, `email=***`, `ip=None` |
| Scenarios.LogUserRow | 0x00-personal_data/filtered_logger.py:89-94 | logging that row renders `name=***; email=***; ip=None` |

## Left out

- `encrypt_password.py` (`hash_password`, `is_valid`) is not part of this model: these are thin wrappers over bcrypt with a random salt.
- `get_db` is not modelled: it reads environment variables and opens a MySQL connection.
- `get_logger` is not modelled: it covers the logger registry, level setting, `propagate` and attaching the handler. `LogRow` hands the record straight to a formatter built with the fields, where the code goes through the handler.
- `main` is not modelled as a loop: the cursor, the query, iteration over rows and closing the connection are database I/O. One iteration is modelled as `LogRow`.
- Render: the base `logging.Formatter.format` is modelled only as the `FORMAT` template.
  - The timestamp is a parameter (`asctime`), because it comes from the clock.
  - Interpolation of `record.args` into the message is not modelled, and neither is appended exception or stack text.
- LogRecord: only `name`, `levelname` and `msg` are modelled; the other attributes of a `logging.LogRecord` are not.
- FilterDatum and RedactingFormatter.constructor (and so `Format`) require field names made of letters, digits and `_`. The code splices names into the pattern unescaped. Names holding regex metacharacters, `=` or `;` change the pattern's meaning. Names holding other characters that a regex takes literally (`-`, a space, as in `date-of-birth`) are also outside the model. General regular-expression semantics are not modelled.
- Value: `str()` of a non-string column (a number, a date) is taken to be already rendered as the `Text` it holds.
- FilterDatumPair, FilterDatumTerminatedPairs and RedactRow require that no key or value holds `=` or `;`. A message of another shape is covered by the general scan lemmas (`LeftmostMatch`, `ScanCopiesUnmatched`, `ScanStopsAtSemicolon`), not by a per-pair formula.
- FilterDatumIdempotent requires a redaction without `;`. Such a redaction is a real limit: the `;` ends the value on a second pass, so the text after it is scanned as a new field and may be redacted again.
