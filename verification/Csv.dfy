/** Writing and reading delimited text: quoting as in section 2 of RFC 4180, and the reader's state machine. */
module Csv {

  // ----- writing -----

  predicate NeedsQuotes(field: string) {
    ',' in field || '"' in field || '\n' in field || '\r' in field
  }

  function DoubleQuotes(field: string): string {
    if field == "" then ""
    else (if field[0] == '"' then "\"\"" else [field[0]]) + DoubleQuotes(field[1..])
  }

  function CsvField(field: string): string {
    if NeedsQuotes(field) then "\"" + DoubleQuotes(field) + "\"" else field
  }

  function PrintRecord(record: seq<string>): string {
    if record == [] then ""
    else if |record| == 1 then CsvField(record[0])
    else CsvField(record[0]) + "," + PrintRecord(record[1..])
  }

  /** Every record on its own line. */
  function PrintRecords(records: seq<seq<string>>): string {
    if records == [] then "" else PrintRecord(records[0]) + "\n" + PrintRecords(records[1..])
  }

  // ----- reading -----

  datatype State = StartRecord | StartField | InField | InQuotedField | InDoubleQuote

  datatype Effect = Skip | Push | EndField | EndRecord

  /** How one character moves the reader; blank lines are skipped, a quote inside a plain field is data. */
  function Next(state: State, c: char): (State, Effect) {
    match state
    case StartRecord => if c == '\r' || c == '\n' then (StartRecord, Skip) else Begin(c)
    case StartField => Begin(c)
    case InField => Continue(c)
    case InQuotedField => if c == '"' then (InDoubleQuote, Skip) else (InQuotedField, Push)
    case InDoubleQuote => if c == '"' then (InQuotedField, Push) else Continue(c)
  }

  function Begin(c: char): (State, Effect) {
    if c == '"' then (InQuotedField, Skip) else Continue(c)
  }

  function Continue(c: char): (State, Effect) {
    if c == ',' then (StartField, EndField)
    else if c == '\r' || c == '\n' then (StartRecord, EndRecord)
    else (InField, Push)
  }

  /** The records of `s`, given what the current field and record hold already. */
  function Read(s: string, state: State, field: string, record: seq<string>): seq<seq<string>>
    decreases |s|
  {
    if s == "" then (if state.StartRecord? then [] else [record + [field]])
    else
      var (next, effect) := Next(state, s[0]);
      match effect
      case Skip => Read(s[1..], next, field, record)
      case Push => Read(s[1..], next, field + [s[0]], record)
      case EndField => Read(s[1..], next, "", record + [field])
      case EndRecord => [record + [field]] + Read(s[1..], next, "", [])
  }

  function ReadRecords(s: string): seq<seq<string>> {
    Read(s, StartRecord, "", [])
  }

  // ----- reading back what was written -----

  /** Where the reader stands after a complete field followed by a separator. */
  function AfterField(separator: char, tail: string, field: string, record: seq<string>): seq<seq<string>> {
    if separator == ',' then Read(tail, StartField, "", record + [field])
    else [record + [field]] + Read(tail, StartRecord, "", [])
  }

  lemma {:induction false} ReadPlain(rest: string, separator: char, tail: string, state: State, field: string,
                                     record: seq<string>)
    requires separator == ',' || separator == '\n'
    requires !NeedsQuotes(rest)
    requires state == StartField || state == InField
    ensures Read(rest + [separator] + tail, state, field, record) == AfterField(separator, tail, field + rest, record)
    decreases |rest|
  {
    var s := rest + [separator] + tail;
    if rest == "" {
      assert s[1..] == tail && field + rest == field;
    } else {
      var c := rest[0];
      assert c in rest;
      assert s[0] == c && s[1..] == rest[1..] + [separator] + tail;
      assert !NeedsQuotes(rest[1..]) by { assert forall x :: x in rest[1..] ==> x in rest; }
      ReadPlain(rest[1..], separator, tail, InField, field + [c], record);
      assert (field + [c]) + rest[1..] == field + rest;
    }
  }

  lemma {:induction false} ReadQuoted(rest: string, separator: char, tail: string, field: string, record: seq<string>)
    requires separator == ',' || separator == '\n'
    ensures Read(DoubleQuotes(rest) + "\"" + [separator] + tail, InQuotedField, field, record)
         == AfterField(separator, tail, field + rest, record)
    decreases |rest|
  {
    var s := DoubleQuotes(rest) + "\"" + [separator] + tail;
    if rest == "" {
      assert s[0] == '"' && s[1..] == [separator] + tail;
      assert s[1..][1..] == tail && field + rest == field;
    } else {
      var c, more := rest[0], DoubleQuotes(rest[1..]) + "\"" + [separator] + tail;
      ReadQuoted(rest[1..], separator, tail, field + [c], record);
      assert (field + [c]) + rest[1..] == field + rest;
      if c == '"' {
        assert s == "\"\"" + more;
        assert s[0] == '"' && s[1..][0] == '"' && s[1..][1..] == more;
      } else {
        assert s == [c] + more;
        assert s[0] == c && s[1..] == more;
      }
    }
  }

  lemma OpensQuoted(s: string, record: seq<string>)
    requires s != "" && s[0] == '"'
    ensures Read(s, StartField, "", record) == Read(s[1..], InQuotedField, "", record)
  {
  }

  /** One written field is read back as it was, whatever it contains. */
  lemma ReadField(f: string, separator: char, tail: string, record: seq<string>)
    requires separator == ',' || separator == '\n'
    ensures Read(CsvField(f) + [separator] + tail, StartField, "", record) == AfterField(separator, tail, f, record)
  {
    assert "" + f == f;
    if NeedsQuotes(f) {
      var s := CsvField(f) + [separator] + tail;
      var inner := DoubleQuotes(f) + "\"" + [separator] + tail;
      assert s == "\"" + inner;
      assert s[0] == '"' && s[1..] == inner;
      OpensQuoted(s, record);
      ReadQuoted(f, separator, tail, "", record);
    } else {
      ReadPlain(f, separator, tail, StartField, "", record);
    }
  }

  lemma {:induction false} ReadLine(fields: seq<string>, tail: string, record: seq<string>)
    requires fields != []
    ensures Read(PrintRecord(fields) + "\n" + tail, StartField, "", record)
         == [record + fields] + Read(tail, StartRecord, "", [])
    decreases |fields|
  {
    if |fields| == 1 {
      ReadField(fields[0], '\n', tail, record);
      assert fields == [fields[0]];
    } else {
      var rest := PrintRecord(fields[1..]) + "\n" + tail;
      assert PrintRecord(fields) + "\n" + tail == CsvField(fields[0]) + [','] + rest;
      ReadField(fields[0], ',', rest, record);
      ReadLine(fields[1..], tail, record + [fields[0]]);
      assert (record + [fields[0]]) + fields[1..] == record + fields;
    }
  }

  lemma StartsAlike(s: string)
    requires s != "" && s[0] != '\r' && s[0] != '\n'
    ensures Read(s, StartRecord, "", []) == Read(s, StartField, "", [])
  {
  }

  lemma FieldBegins(field: string)
    requires CsvField(field) != ""
    ensures CsvField(field)[0] != '\r' && CsvField(field)[0] != '\n'
  {
    if !NeedsQuotes(field) { assert field[0] in field; }
  }

  /** A record of two or more fields never looks like a blank line. */
  lemma LineBegins(fields: seq<string>)
    requires |fields| >= 2
    ensures var p := PrintRecord(fields); p != "" && p[0] != '\r' && p[0] != '\n'
  {
    var f, p := CsvField(fields[0]), PrintRecord(fields);
    if f == "" {
      assert p[0] == ',';
    } else {
      FieldBegins(fields[0]);
      assert p[0] == f[0];
    }
  }

  /** Reading what was printed gives back every record, including commas, quotes and line breaks in fields. */
  lemma {:induction false} ReadPrinted(records: seq<seq<string>>)
    requires forall r :: r in records ==> |r| >= 2
    ensures ReadRecords(PrintRecords(records)) == records
  {
    if records == [] {
    } else {
      var tail := PrintRecords(records[1..]);
      LineBegins(records[0]);
      StartsAlike(PrintRecord(records[0]) + "\n" + tail);
      ReadLine(records[0], tail, []);
      ReadPrinted(records[1..]);
      assert [] + records[0] == records[0];
      assert records == [records[0]] + records[1..];
    }
  }
}
