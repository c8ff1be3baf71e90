/** `format_row`: one database row rendered as the message
    `header1=value1; header2=value2; ...`, pairing headers and values with
    `zip` and joining the pairs with `"; "`. */
module RowFormat {
  import opened Redaction

  /** A column value of a row. `str()` of a value that is not a string (a
      number, a date) is given by its text; SQL `NULL` arrives as `None`. */
  datatype Value = Text(text: string) | Null

  /** `str(value)`, as an f-string interpolates it. */
  function Show(v: Value): string {
    match v
    case Text(t) => t
    case Null => "None"
  }

  /** Python's `zip`: the pairs of equal index, up to the shorter input. */
  function Zip<A, B>(xs: seq<A>, ys: seq<B>): (zs: seq<(A, B)>)
    ensures |zs| == if |xs| <= |ys| then |xs| else |ys|
    ensures forall j :: 0 <= j < |zs| ==> zs[j] == (xs[j], ys[j])
  {
    if xs == [] || ys == [] then [] else [(xs[0], ys[0])] + Zip(xs[1..], ys[1..])
  }

  /** `sep.join(parts)`: the separator goes between parts only. */
  function Join(sep: string, parts: seq<string>): string {
    if parts == [] then ""
    else if |parts| == 1 then parts[0]
    else parts[0] + sep + Join(sep, parts[1..])
  }

  /** The separator `format_row` joins with. */
  const RowSeparator: string := "; "

  /** The `header=value` pairs of a row: one per header that has a value,
      in header order. */
  function RowPairs(row: seq<Value>, headers: seq<string>): (pairs: seq<Pair>)
    ensures |pairs| == if |headers| <= |row| then |headers| else |row|
    ensures forall j :: 0 <= j < |pairs| ==> pairs[j] == Pair(headers[j], Show(row[j]))
  {
    var zs := Zip(headers, row);
    seq(|zs|, j requires 0 <= j < |zs| => Pair(zs[j].0, Show(zs[j].1)))
  }

  /** The f-string texts `header=value` of a row, in header order. */
  function RowFields(row: seq<Value>, headers: seq<string>): (fields: seq<string>)
    ensures |fields| == if |headers| <= |row| then |headers| else |row|
    ensures forall j :: 0 <= j < |fields| ==> fields[j] == headers[j] + "=" + Show(row[j])
  {
    PairTexts(RowPairs(row, headers))
  }

  /** `format_row(row, headers)`. */
  function FormatRow(row: seq<Value>, headers: seq<string>): string {
    Join(RowSeparator, RowFields(row, headers))
  }

  /** Cuts a text at every `"; "`: the inverse of joining with `"; "`
      parts that hold no `;`. */
  function Split(s: string): (parts: seq<string>)
    ensures parts != []
    decreases |s|
  {
    if |s| < 2 then [s]
    else if s[0] == ';' && s[1] == ' ' then [""] + Split(s[2..])
    else
      var rest := Split(s[1..]);
      [[s[0]] + rest[0]] + rest[1..]
  }

  predicate NoSemicolons(parts: seq<string>) {
    forall j :: 0 <= j < |parts| ==> ';' !in parts[j]
  }

  /** A text with no `;` is not cut. */
  lemma {:induction false} SplitWhole(p: string)
    requires ';' !in p
    ensures Split(p) == [p]
    decreases |p|
  {
    if |p| >= 2 {
      assert p[0] != ';';
      SplitWhole(p[1..]);
      assert [p[0]] + p[1..] == p;
    }
  }

  /** The first `"; "` after a `;`-free part is where the text is cut. */
  lemma {:induction false} SplitFirst(p: string, t: string)
    requires ';' !in p
    ensures Split(p + RowSeparator + t) == [p] + Split(t)
    decreases |p|
  {
    var s := p + RowSeparator + t;
    if p == [] {
      assert s == "; " + t;
      assert s[2..] == t;
    } else {
      assert s[0] == p[0];
      assert s[1..] == p[1..] + RowSeparator + t;
      SplitFirst(p[1..], t);
      assert [p[0]] + p[1..] == p;
    }
  }

  /** Splitting undoes joining, for a non-empty list of parts that hold
      no `;`. */
  lemma {:induction false} SplitJoin(parts: seq<string>)
    requires parts != [] && NoSemicolons(parts)
    ensures Split(Join(RowSeparator, parts)) == parts
    decreases |parts|
  {
    if |parts| == 1 {
      SplitWhole(parts[0]);
    } else {
      SplitJoin(parts[1..]);
      SplitFirst(parts[0], Join(RowSeparator, parts[1..]));
      assert [parts[0]] + parts[1..] == parts;
    }
  }

  /** The joined text ends with the last part: no separator trails it. */
  lemma {:induction false} JoinEndsWithLast(sep: string, parts: seq<string>)
    requires parts != []
    ensures var s := Join(sep, parts);
            var last := parts[|parts| - 1];
            |last| <= |s| && s[|s| - |last|..] == last
    decreases |parts|
  {
    if |parts| > 1 {
      JoinEndsWithLast(sep, parts[1..]);
      var rest := Join(sep, parts[1..]);
      var s := parts[0] + sep + rest;
      assert s[|s| - |rest|..] == rest;
    }
  }

  /** The joined text starts with the first part. */
  lemma {:induction false} JoinStartsWithFirst(sep: string, parts: seq<string>)
    requires parts != []
    ensures var s := Join(sep, parts);
            |parts[0]| <= |s| && s[..|parts[0]|] == parts[0]
  {
    if |parts| > 1 {
      var s := parts[0] + sep + Join(sep, parts[1..]);
      assert s[..|parts[0]|] == parts[0];
    }
  }

  /** `format_row` gives the empty text exactly when the row or the
      header list is empty. */
  lemma FormatRowEmpty(row: seq<Value>, headers: seq<string>)
    ensures FormatRow(row, headers) == "" <==> row == [] || headers == []
  {
    var fields := RowFields(row, headers);
    if fields != [] {
      JoinStartsWithFirst(RowSeparator, fields);
      assert fields[0][|headers[0]|] == '=';
    }
  }

  /** A non-empty row's message starts with its first field and ends with
      its last one: no separator leads or trails. */
  lemma FormatRowEnds(row: seq<Value>, headers: seq<string>)
    requires row != [] && headers != []
    ensures var fields := RowFields(row, headers);
            var s := FormatRow(row, headers);
            && fields != []
            && |fields[0]| <= |s| && s[..|fields[0]|] == fields[0]
            && |fields[|fields| - 1]| <= |s| && s[|s| - |fields[|fields| - 1]|..] == fields[|fields| - 1]
  {
    var fields := RowFields(row, headers);
    JoinStartsWithFirst(RowSeparator, fields);
    JoinEndsWithLast(RowSeparator, fields);
  }

  /** When no header and no value holds `;`, cutting a non-empty row's
      message at `"; "` gives back exactly its fields. */
  lemma FormatRowSplits(row: seq<Value>, headers: seq<string>)
    requires row != [] && headers != []
    requires forall j :: 0 <= j < |headers| ==> ';' !in headers[j]
    requires forall j :: 0 <= j < |row| ==> ';' !in Show(row[j])
    ensures Split(FormatRow(row, headers)) == RowFields(row, headers)
  {
    var fields := RowFields(row, headers);
    forall j | 0 <= j < |fields|
      ensures ';' !in fields[j]
    {
      assert fields[j] == headers[j] + "=" + Show(row[j]);
    }
    SplitJoin(fields);
  }
}
