/** Worked examples of the redaction, each proved: the two sample
    messages and the sample record kept at the end of `filtered_logger.py`,
    a row of the users table, and single cases that pin down how the
    pattern behaves.
    A message of `;`-terminated fields is written as its list of pairs:
    `Terminated(PairTexts(ps))` is `k1=v1;k2=v2;...;`. */
module Scenarios {
  import opened Redaction
  import opened RowFormat
  import opened Logging

  // ---------------------------------------------------------------------
  // Lists of three and four pairs, taken apart

  lemma PlainFour(p0: Pair, p1: Pair, p2: Pair, p3: Pair)
    requires Plain(p0.key) && Plain(p0.value) && Plain(p1.key) && Plain(p1.value)
    requires Plain(p2.key) && Plain(p2.value) && Plain(p3.key) && Plain(p3.value)
    ensures PlainPairs([p0, p1, p2, p3])
  {
  }

  lemma TextsFour(p0: Pair, p1: Pair, p2: Pair, p3: Pair)
    ensures PairTexts([p0, p1, p2, p3])
         == [p0.key + "=" + p0.value, p1.key + "=" + p1.value, p2.key + "=" + p2.value, p3.key + "=" + p3.value]
  {
  }

  lemma RedactedFour(alts: seq<string>, redaction: string, p0: Pair, p1: Pair, p2: Pair, p3: Pair)
    ensures RedactedPairs(alts, redaction, [p0, p1, p2, p3])
         == [RedactedPair(alts, redaction, p0.key, p0.value), RedactedPair(alts, redaction, p1.key, p1.value),
             RedactedPair(alts, redaction, p2.key, p2.value), RedactedPair(alts, redaction, p3.key, p3.value)]
  {
  }

  lemma PlainThree(p0: Pair, p1: Pair, p2: Pair)
    requires Plain(p0.key) && Plain(p0.value) && Plain(p1.key) && Plain(p1.value)
    requires Plain(p2.key) && Plain(p2.value)
    ensures PlainPairs([p0, p1, p2])
  {
  }

  lemma TextsThree(p0: Pair, p1: Pair, p2: Pair)
    ensures PairTexts([p0, p1, p2]) == [p0.key + "=" + p0.value, p1.key + "=" + p1.value, p2.key + "=" + p2.value]
  {
  }

  lemma RedactedThree(alts: seq<string>, redaction: string, p0: Pair, p1: Pair, p2: Pair)
    ensures RedactedPairs(alts, redaction, [p0, p1, p2])
         == [RedactedPair(alts, redaction, p0.key, p0.value), RedactedPair(alts, redaction, p1.key, p1.value),
             RedactedPair(alts, redaction, p2.key, p2.value)]
  {
  }

  // ---------------------------------------------------------------------
  // The sample messages, under `password` and `date_of_birth`

  const SampleFields: seq<string> := ["password", "date_of_birth"]

  const Egg: seq<Pair> := [Pair("name", "egg"), Pair("email", "eggmin@eggsample.com"),
                           Pair("password", "eggcellent"), Pair("date_of_birth", "12/12/1986")]
  const EggRedactedXxx: seq<Pair> := [Pair("name", "egg"), Pair("email", "eggmin@eggsample.com"),
                                      Pair("password", "xxx"), Pair("date_of_birth", "xxx")]

  const Bob: seq<Pair> := [Pair("name", "bob"), Pair("email", "bob@dylan.com"),
                           Pair("password", "bobbycool"), Pair("date_of_birth", "03/04/1993")]
  const BobRedactedXxx: seq<Pair> := [Pair("name", "bob"), Pair("email", "bob@dylan.com"),
                                      Pair("password", "xxx"), Pair("date_of_birth", "xxx")]

  lemma SampleFieldsAreNames()
    ensures AllFieldNames(SampleFields)
  {
    assert IsFieldName(SampleFields[0]) && IsFieldName(SampleFields[1]);
  }

  /** Which keys of the samples end with one of the sample fields. */
  lemma SampleKeys()
    ensures !SuffixIsAlternative(SampleFields, "name")
    ensures !SuffixIsAlternative(SampleFields, "email")
    ensures SuffixIsAlternative(SampleFields, "password")
    ensures SuffixIsAlternative(SampleFields, "date_of_birth")
  {
    KeyShorterThanAlternatives(SampleFields, "name");
    KeyShorterThanAlternatives(SampleFields, "email");
    KeyIsAlternative(SampleFields, "password");
    KeyIsAlternative(SampleFields, "date_of_birth");
  }

  lemma EggStrings()
    ensures Plain("name") && Plain("egg") && Plain("email") && Plain("eggmin@eggsample.com")
    ensures Plain("password") && Plain("eggcellent") && Plain("date_of_birth") && Plain("12/12/1986")
  {
  }

  lemma EggPlain()
    ensures PlainPairs(Egg)
  {
    EggStrings();
    PlainFour(Egg[0], Egg[1], Egg[2], Egg[3]);
    assert Egg == [Egg[0], Egg[1], Egg[2], Egg[3]];
  }

  lemma EggRedacted()
    ensures RedactedPairs(SampleFields, "xxx", Egg) == PairTexts(EggRedactedXxx)
  {
    SampleKeys();
    RedactedFour(SampleFields, "xxx", Egg[0], Egg[1], Egg[2], Egg[3]);
    TextsFour(EggRedactedXxx[0], EggRedactedXxx[1], EggRedactedXxx[2], EggRedactedXxx[3]);
    assert Egg == [Egg[0], Egg[1], Egg[2], Egg[3]];
    assert EggRedactedXxx == [EggRedactedXxx[0], EggRedactedXxx[1], EggRedactedXxx[2], EggRedactedXxx[3]];
  }

  /** The first sample message: password and date of birth become `xxx`;
      name and email are kept. */
  lemma EggMessage()
    ensures FilterDatum(SampleFields, "xxx", Terminated(PairTexts(Egg)), ";")
         == Terminated(PairTexts(EggRedactedXxx))
  {
    SampleFieldsAreNames();
    EggPlain();
    EggRedacted();
    FilterDatumTerminatedPairs(SampleFields, "xxx", Egg, ";");
  }

  lemma BobStrings()
    ensures Plain("name") && Plain("bob") && Plain("email") && Plain("bob@dylan.com")
    ensures Plain("password") && Plain("bobbycool") && Plain("date_of_birth") && Plain("03/04/1993")
  {
  }

  lemma BobPlain()
    ensures PlainPairs(Bob)
  {
    BobStrings();
    PlainFour(Bob[0], Bob[1], Bob[2], Bob[3]);
    assert Bob == [Bob[0], Bob[1], Bob[2], Bob[3]];
  }

  lemma BobRedacted()
    ensures RedactedPairs(SampleFields, "xxx", Bob) == PairTexts(BobRedactedXxx)
  {
    SampleKeys();
    RedactedFour(SampleFields, "xxx", Bob[0], Bob[1], Bob[2], Bob[3]);
    TextsFour(BobRedactedXxx[0], BobRedactedXxx[1], BobRedactedXxx[2], BobRedactedXxx[3]);
    assert Bob == [Bob[0], Bob[1], Bob[2], Bob[3]];
    assert BobRedactedXxx == [BobRedactedXxx[0], BobRedactedXxx[1], BobRedactedXxx[2], BobRedactedXxx[3]];
  }

  /** The second sample message, under the same fields. */
  lemma BobMessage()
    ensures FilterDatum(SampleFields, "xxx", Terminated(PairTexts(Bob)), ";")
         == Terminated(PairTexts(BobRedactedXxx))
  {
    SampleFieldsAreNames();
    BobPlain();
    BobRedacted();
    FilterDatumTerminatedPairs(SampleFields, "xxx", Bob, ";");
  }

  // ---------------------------------------------------------------------
  // The sample record, under `email`, `ssn` and `password`

  const RecordFields: seq<string> := ["email", "ssn", "password"]

  const Record: seq<Pair> := [Pair("name", "Bob"), Pair("email", "bob@dylan.com"),
                              Pair("ssn", "000-123-0000"), Pair("password", "bobby2019")]
  const RecordRedactedStars: seq<Pair> := [Pair("name", "Bob"), Pair("email", "***"),
                                           Pair("ssn", "***"), Pair("password", "***")]

  lemma RecordFieldsAreNames()
    ensures AllFieldNames(RecordFields)
  {
    assert IsFieldName(RecordFields[0]) && IsFieldName(RecordFields[1]) && IsFieldName(RecordFields[2]);
  }

  /** No suffix of `name` is `email`, `ssn` or `password`. */
  lemma NameKeptUnderRecordFields()
    ensures !SuffixIsAlternative(RecordFields, "name")
  {
    var key := "name";
    SuffixFromExists(RecordFields, key, 0);
    assert key[1..] == "ame";
  }

  lemma RecordStrings()
    ensures Plain("name") && Plain("Bob") && Plain("email") && Plain("bob@dylan.com")
    ensures Plain("ssn") && Plain("000-123-0000") && Plain("password") && Plain("bobby2019")
  {
  }

  lemma RecordPlain()
    ensures PlainPairs(Record)
  {
    RecordStrings();
    PlainFour(Record[0], Record[1], Record[2], Record[3]);
    assert Record == [Record[0], Record[1], Record[2], Record[3]];
  }

  lemma RecordRedacted()
    ensures RedactedPairs(RecordFields, REDACTION, Record) == PairTexts(RecordRedactedStars)
  {
    NameKeptUnderRecordFields();
    KeyIsAlternative(RecordFields, "email");
    KeyIsAlternative(RecordFields, "ssn");
    KeyIsAlternative(RecordFields, "password");
    RedactedFour(RecordFields, REDACTION, Record[0], Record[1], Record[2], Record[3]);
    TextsFour(RecordRedactedStars[0], RecordRedactedStars[1], RecordRedactedStars[2], RecordRedactedStars[3]);
    assert Record == [Record[0], Record[1], Record[2], Record[3]];
    assert RecordRedactedStars
        == [RecordRedactedStars[0], RecordRedactedStars[1], RecordRedactedStars[2], RecordRedactedStars[3]];
  }

  lemma RecordMessage()
    ensures FilterDatum(RecordFields, REDACTION, Terminated(PairTexts(Record)), SEPARATOR)
         == Terminated(PairTexts(RecordRedactedStars))
  {
    RecordFieldsAreNames();
    RecordPlain();
    RecordRedacted();
    FilterDatumTerminatedPairs(RecordFields, REDACTION, Record, SEPARATOR);
  }

  /** The sample record: the formatter rewrites the record's message to
      `name=Bob;email=***;ssn=***;password=***;` and renders the record
      with `FORMAT`. */
  method RecordLine(asctime: string) returns (line: string)
    ensures line == Render("my_logger", INFO, asctime, Terminated(PairTexts(RecordRedactedStars)))
  {
    RecordFieldsAreNames();
    RecordMessage();
    var formatter := new RedactingFormatter(RecordFields);
    var record := new LogRecord("my_logger", INFO, Terminated(PairTexts(Record)));
    line := formatter.Format(record, asctime);
  }

  // ---------------------------------------------------------------------
  // Single cases

  lemma SurnameKey()
    ensures SuffixIsAlternative(["name"], "surname")
  {
    var key := "surname";
    SuffixFromExists(["name"], key, 0);
    assert key[3..] == "name";
  }

  lemma SurnamePair()
    ensures PlainPairs([Pair("surname", "Jo")])
    ensures RedactedPairs(["name"], "***", [Pair("surname", "Jo")]) == PairTexts([Pair("surname", "***")])
  {
    SurnameKey();
    assert Plain("surname") && Plain("Jo");
    assert RedactedPairs(["name"], "***", [Pair("surname", "Jo")])[0] == PairTexts([Pair("surname", "***")])[0];
  }

  /** Matching is not anchored to the start of a key: under the field
      `name`, the value of `surname` is redacted too. */
  lemma SurnameRedacted()
    ensures FilterDatum(["name"], "***", Terminated(PairTexts([Pair("surname", "Jo")])), ";")
         == Terminated(PairTexts([Pair("surname", "***")]))
  {
    assert IsFieldName(["name"][0]);
    SurnamePair();
    FilterDatumTerminatedPairs(["name"], "***", [Pair("surname", "Jo")], ";");
  }

  /** Matching is not tied to a key either: a field name inside a value,
      followed by `=`, starts a match of its own. Under `name`,
      `a=name=x;` becomes `a=name=***;`. */
  lemma FieldInsideValueRedacted(message: string)
    requires message == "a=name=x;"
    ensures FilterDatum(["name"], "***", message, ";") == "a=name=***;"
  {
    var alts := ["name"];
    assert IsFieldName(alts[0]);
    assert message[0] != alts[0][0] && message[1] != alts[0][0];
    NoAlternative(alts, message, 0);
    NoAlternative(alts, message, 1);
    assert message[2..6] == alts[0];
    FirstAlternativeIs(alts, message, 2, 0);
    LeftmostMatch(alts, "***", message, 0, 2, 0);
    RunEndAt(message, 7, 8);
    NoAlternative(alts, message, 8);
    ScanCopiesUnmatched(alts, "***", message, 8, 9);
  }

  /** An empty value is not a match (`[^;]+` needs a character): the
      message `password=;` comes back as it was. */
  lemma EmptyPasswordKept(message: string)
    requires message == "password=;"
    ensures FilterDatum(["password"], "***", message, ";") == message
  {
    assert IsFieldName(["password"][0]);
    assert forall i :: 0 <= i < |message| - 1 && message[i] == '=' ==> message[i + 1] == ';';
    NoValuePassthrough(["password"], "***", message, ";");
  }

  /** The separator argument plays no part: with `,` between fields, the
      value run of the first match takes the rest of the message. */
  lemma SeparatorIgnored(message: string)
    requires message == "password=x,name=y"
    ensures FilterDatum(["password"], "***", message, ",") == "password=***"
  {
    var alts := ["password"];
    assert IsFieldName(alts[0]);
    assert message[0..8] == alts[0];
    assert MatchesAt(alts[0], message, 0);
    FirstAlternativeIs(alts, message, 0, 0);
    LeftmostMatch(alts, "***", message, 0, 0, 0);
    RunEndAt(message, 9, |message|);
  }

  const Letters: seq<Pair> := [Pair("a", "1"), Pair("b", ""), Pair("c", "x")]
  const LettersRedacted: seq<Pair> := [Pair("a", "***"), Pair("b", ""), Pair("c", "***")]

  /** An empty field list redacts every non-empty value, whatever its key. */
  lemma NoFieldsRedactAll()
    ensures FilterDatum([], "***", Terminated(PairTexts(Letters)), ";") == Terminated(PairTexts(LettersRedacted))
  {
    assert Plain("a") && Plain("1") && Plain("b") && Plain("") && Plain("c") && Plain("x");
    PlainThree(Letters[0], Letters[1], Letters[2]);
    assert Letters == [Letters[0], Letters[1], Letters[2]];
    FilterDatumNoFields("***", Letters, ";");
    var texts := seq(|Letters|, j requires 0 <= j < |Letters| =>
                       Letters[j].key + "=" + (if Letters[j].value != [] then "***" else Letters[j].value));
    TextsThree(LettersRedacted[0], LettersRedacted[1], LettersRedacted[2]);
    assert LettersRedacted == [LettersRedacted[0], LettersRedacted[1], LettersRedacted[2]];
    assert texts == PairTexts(LettersRedacted) by {
      assert texts[0] == PairTexts(LettersRedacted)[0];
      assert texts[1] == PairTexts(LettersRedacted)[1];
      assert texts[2] == PairTexts(LettersRedacted)[2];
    }
  }

  // ---------------------------------------------------------------------
  // One row of the users table

  const UserHeaders: seq<string> := ["name", "email", "ip"]
  const UserRow: seq<Value> := [Text("Bob"), Text("bob@dylan.com"), Null]
  const UserRowRedactedStars: seq<Pair> := [Pair("name", "***"), Pair("email", "***"), Pair("ip", "None")]

  lemma UserRowPlain()
    ensures forall j :: 0 <= j < |UserHeaders| ==> Plain(UserHeaders[j])
    ensures forall j :: 0 <= j < |UserRow| ==> Plain(Show(UserRow[j]))
  {
    assert Plain("name") && Plain("email") && Plain("ip");
    assert Plain("Bob") && Plain("bob@dylan.com") && Plain("None");
  }

  lemma UserRowRedacted()
    ensures RedactedPairs(PII_FIELDS, REDACTION, RowPairs(UserRow, UserHeaders)) == PairTexts(UserRowRedactedStars)
  {
    KeyIsAlternative(PII_FIELDS, "name");
    KeyIsAlternative(PII_FIELDS, "email");
    KeyShorterThanAlternatives(PII_FIELDS, "ip");
    var pairs := RowPairs(UserRow, UserHeaders);
    assert |pairs| == 3;
    assert pairs[0] == Pair("name", "Bob") && pairs[1] == Pair("email", "bob@dylan.com") && pairs[2] == Pair("ip", "None");
    RedactedThree(PII_FIELDS, REDACTION, pairs[0], pairs[1], pairs[2]);
    TextsThree(UserRowRedactedStars[0], UserRowRedactedStars[1], UserRowRedactedStars[2]);
    assert pairs == [pairs[0], pairs[1], pairs[2]];
    assert UserRowRedactedStars == [UserRowRedactedStars[0], UserRowRedactedStars[1], UserRowRedactedStars[2]];
  }

  /** A row logged through a formatter for `PII_FIELDS`: the line carries
      `name=***; email=***; ip=None` — name and email redacted, `ip` kept,
      and the `NULL` column shown as `None`. */
  method LogUserRow(asctime: string) returns (line: string)
    ensures line == Render(ROW_LOGGER, INFO, asctime, Join(RowSeparator, PairTexts(UserRowRedactedStars)))
  {
    PiiFieldsAreNames();
    UserRowPlain();
    UserRowRedacted();
    assert Alternatives(PII_FIELDS) == PII_FIELDS;
    RedactRow(PII_FIELDS, REDACTION, UserRow, UserHeaders, SEPARATOR);
    var formatter := new RedactingFormatter(PII_FIELDS);
    line := LogRow(formatter, UserRow, UserHeaders, asctime);
  }
}
