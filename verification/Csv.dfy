/**
 The CSV writer of pqcscan (pqcscan/src/main.rs) and, as its partner, a reader for section 2 of
 RFC 4180 with LF line ends.
 */
module Csv {
  import opened Common

  // ----- the writer -----

  class Writer {
    var text: string

    constructor ()
      ensures text == ""
    {
      text := "";
    }

    method WriteAll(s: string)
      modifies this
      ensures text == old(text) + s
    {
      text := text + s;
    }

    method WriteCsvField(field: string)
      modifies this
      ensures text == old(text) + EncodeField(field)
    {
      hide Doubled, NeedsQuotes;
      if NeedsQuotes(field) {
        WriteAll("\"");
        WriteAll(Doubled(field));
        WriteAll("\"");
        assert text == old(text) + ("\"" + Doubled(field) + "\"");
      } else {
        WriteAll(field);
      }
    }

    method WriteCsvRecord(fields: seq<string>)
      modifies this
      ensures text == old(text) + EncodeRecord(fields)
    {
      for idx := 0 to |fields|
        invariant text == old(text) + Separated(fields[..idx])
      {
        assert fields[..idx + 1][..idx] == fields[..idx];
        if idx > 0 {
          WriteAll(",");
        }
        WriteCsvField(fields[idx]);
      }
      assert fields[..|fields|] == fields;
      WriteAll("\n");
    }
  }

  predicate IsSpecial(c: char) {
    c == ',' || c == '"' || c == '\n' || c == '\r'
  }

  predicate NeedsQuotes(field: string) {
    exists c | c in field :: IsSpecial(c)
  }

  /** `replace('"', "\"\"")` */
  function Doubled(field: string): string {
    if field == "" then ""
    else (if field[0] == '"' then "\"\"" else [field[0]]) + Doubled(field[1..])
  }

  function EncodeField(field: string): string {
    if NeedsQuotes(field) then "\"" + Doubled(field) + "\"" else field
  }

  /** The one form of a field: in quotes with its own doubled exactly when it holds one of four characters. */
  lemma QuotedExactly(field: string)
    ensures EncodeField(field) ==
              if ',' in field || '"' in field || '\n' in field || '\r' in field then ['"'] + Doubled(field) + ['"']
              else field
    ensures '"' !in field ==> Doubled(field) == field
  {
    hide Doubled;
    if '"' !in field {
      NothingDoubled(field);
    }
  }

  lemma {:induction false} NothingDoubled(field: string)
    requires '"' !in field
    ensures Doubled(field) == field
  {
    if field != "" {
      NothingDoubled(field[1..]);
      assert field == [field[0]] + field[1..];
    }
  }

  function Separated(fields: seq<string>): string {
    if fields == [] then ""
    else
      var n := |fields| - 1;
      Separated(fields[..n]) + (if n > 0 then "," else "") + EncodeField(fields[n])
  }

  function EncodeRecord(fields: seq<string>): string {
    Separated(fields) + "\n"
  }

  function EncodeRecords(records: seq<seq<string>>): string {
    if records == [] then "" else EncodeRecords(records[..|records| - 1]) + EncodeRecord(records[|records| - 1])
  }

  // ----- the reader -----

  /** Text up to a separator; quotes and carriage returns are not text. */
  function ReadPlain(s: string): (r: Option<(string, string)>)
    ensures r.Some? ==> |r.value.1| <= |s| && (r.value.1 == "" || r.value.1[0] == ',' || r.value.1[0] == '\n')
  {
    if s == "" || s[0] == ',' || s[0] == '\n' then Some(("", s))
    else if IsSpecial(s[0]) then None
    else match ReadPlain(s[1..]) case Some((field, rest)) => Some(([s[0]] + field, rest)) case None => None
  }

  /** Text up to the closing quote, two quotes standing for one. */
  function ReadQuoted(s: string): (r: Option<(string, string)>)
    ensures r.Some? ==> |r.value.1| < |s|
  {
    if s == "" then None
    else if s[0] != '"' then
      match ReadQuoted(s[1..]) case Some((field, rest)) => Some(([s[0]] + field, rest)) case None => None
    else if |s| > 1 && s[1] == '"' then
      match ReadQuoted(s[2..]) case Some((field, rest)) => Some((['"'] + field, rest)) case None => None
    else Some(("", s[1..]))
  }

  function ReadField(s: string): (r: Option<(string, string)>)
    ensures r.Some? ==> |r.value.1| <= |s|
    ensures r.Some? && |r.value.1| == |s| ==> s == "" || s[0] == ',' || s[0] == '\n'
  {
    if s != "" && s[0] == '"' then ReadQuoted(s[1..]) else ReadPlain(s)
  }

  /** Fields up to a line end (or the end of the text), and what follows. */
  function ReadRecord(s: string): (r: Option<(seq<string>, string)>)
    ensures r.Some? && s != "" ==> |r.value.1| < |s|
    ensures r.Some? ==> |r.value.1| <= |s|
    decreases |s|
  {
    match ReadField(s)
    case None => None
    case Some((field, rest)) =>
      if rest == "" then Some(([field], ""))
      else if rest[0] == '\n' then Some(([field], rest[1..]))
      else if rest[0] != ',' then None
      else match ReadRecord(rest[1..]) case Some((fields, after)) => Some(([field] + fields, after)) case None => None
  }

  function ReadCsv(s: string): Option<seq<seq<string>>>
    decreases |s|
  {
    if s == "" then Some([])
    else
      match ReadRecord(s)
      case None => None
      case Some((fields, rest)) =>
        match ReadCsv(rest) case Some(records) => Some([fields] + records) case None => None
  }

  // ----- the round trip -----

  predicate EndsField(tail: string) {
    tail == "" || tail[0] == ',' || tail[0] == '\n'
  }

  lemma {:induction false} PlainIsRead(field: string, tail: string)
    requires !NeedsQuotes(field) && EndsField(tail)
    ensures ReadPlain(field + tail) == Some((field, tail))
  {
    if field == "" {
      assert field + tail == tail;
    } else {
      assert field[0] in field;
      assert forall c | c in field[1..] :: c in field;
      PlainIsRead(field[1..], tail);
      assert (field + tail)[1..] == field[1..] + tail;
      assert [field[0]] + field[1..] == field;
    }
  }

  lemma {:induction false} QuotedIsRead(field: string, tail: string)
    requires EndsField(tail)
    ensures ReadQuoted(Doubled(field) + "\"" + tail) == Some((field, tail))
  {
    var s := Doubled(field) + "\"" + tail;
    if field == "" {
      assert s[1..] == tail;
    } else {
      QuotedIsRead(field[1..], tail);
      var after := Doubled(field[1..]) + "\"" + tail;
      if field[0] == '"' {
        assert s == "\"\"" + after;
        assert s[2..] == after;
      } else {
        assert s == [field[0]] + after;
        assert s[1..] == after;
      }
      assert [field[0]] + field[1..] == field;
    }
  }

  lemma PlainHasNoQuote(field: string)
    requires !NeedsQuotes(field)
    ensures '"' !in field
  {
  }

  lemma FieldIsRead(field: string, tail: string)
    requires EndsField(tail)
    ensures ReadField(EncodeField(field) + tail) == Some((field, tail))
  {
    hide Doubled, ReadQuoted, ReadPlain;
    var s := EncodeField(field) + tail;
    if NeedsQuotes(field) {
      QuotedIsRead(field, tail);
      assert s == "\"" + (Doubled(field) + "\"" + tail);
      assert s[0] == '"' && s[1..] == Doubled(field) + "\"" + tail;
    } else {
      PlainIsRead(field, tail);
      hide NeedsQuotes;
      if field != "" {
        assert s[0] == field[0] && field[0] in field;
        assert s[0] != '"' by { PlainHasNoQuote(field); }
      } else {
        assert s == tail;
      }
    }
  }

  lemma SeparatedSnoc(fields: seq<string>, last: string)
    ensures Separated(fields + [last]) == Separated(fields) + (if fields == [] then "" else ",") + EncodeField(last)
  {
    assert (fields + [last])[..|fields|] == fields;
    hide EncodeField;
  }

  lemma Regroup(first: string, front: string, comma: string, last: string)
    ensures first + "," + front + comma + last == first + "," + (front + comma + last)
  {
  }

  lemma {:induction false} SeparatedCons(first: string, rest: seq<string>)
    requires rest != []
    ensures Separated([first] + rest) == EncodeField(first) + "," + Separated(rest)
  {
    hide EncodeField, Separated;
    var front, last := rest[..|rest| - 1], rest[|rest| - 1];
    assert rest == front + [last] && [first] + rest == ([first] + front) + [last];
    SeparatedSnoc([first] + front, last);
    if front == [] {
      OneSeparated(first);
      OneSeparated(last);
      assert [first] + front == [first] && rest == [last];
    } else {
      SeparatedSnoc(front, last);
      SeparatedCons(first, front);
      Regroup(EncodeField(first), Separated(front), ",", EncodeField(last));
    }
  }

  lemma OneSeparated(field: string)
    ensures Separated([]) == "" && Separated([field]) == EncodeField(field)
  {
    assert [field][..0] == [];
    hide EncodeField;
  }

  /** One field of a record, the reader's way. */
  lemma ReadRecordStep(s: string, field: string, after: string)
    requires ReadField(s) == Some((field, after)) && after != ""
    ensures after[0] == '\n' ==> ReadRecord(s) == Some(([field], after[1..]))
    ensures after[0] == ',' && ReadRecord(after[1..]).Some? ==>
              ReadRecord(s) == Some(([field] + ReadRecord(after[1..]).value.0, ReadRecord(after[1..]).value.1))
  {
    hide ReadField;
  }

  lemma RecordParts(first: string, others: seq<string>, tail: string)
    ensures EncodeRecord([first] + others) + tail
            == EncodeField(first) + if others == [] then "\n" + tail else "," + (EncodeRecord(others) + tail)
  {
    hide EncodeField, Separated;
    if others == [] {
      assert [first] + others == [first];
      OneSeparated(first);
    } else {
      SeparatedCons(first, others);
    }
  }

  lemma {:induction false} RecordIsRead(fields: seq<string>, tail: string)
    requires fields != []
    ensures ReadRecord(EncodeRecord(fields) + tail) == Some((fields, tail))
    decreases |fields|
  {
    hide *;
    var first, others := fields[0], fields[1..];
    var s := EncodeRecord(fields) + tail;
    var after := if others == [] then "\n" + tail else "," + (EncodeRecord(others) + tail);
    assert fields == [first] + others;
    RecordParts(first, others, tail);
    assert EndsField(after) by { SeparatorEndsField(after); }
    FieldIsRead(first, after);
    ReadRecordStep(s, first, after);
    if others == [] {
      assert after[1..] == tail && fields == [first];
    } else {
      assert after[1..] == EncodeRecord(others) + tail;
      RecordIsRead(others, tail);
    }
  }

  lemma SeparatorEndsField(s: string)
    ensures s != "" && (s[0] == ',' || s[0] == '\n') ==> EndsField(s)
  {
  }

  lemma EncodeSnoc(rows: seq<seq<string>>, row: seq<string>)
    ensures EncodeRecords(rows + [row]) == EncodeRecords(rows) + EncodeRecord(row)
  {
    assert (rows + [row])[..|rows|] == rows;
    hide EncodeRecord;
  }

  lemma {:induction false} EncodeAppend(a: seq<seq<string>>, b: seq<seq<string>>)
    ensures EncodeRecords(a + b) == EncodeRecords(a) + EncodeRecords(b)
  {
    if b == [] {
      assert a + b == a;
    } else {
      hide EncodeRecord, EncodeRecords;
      var front, last := b[..|b| - 1], b[|b| - 1];
      assert b == front + [last] && a + b == (a + front) + [last];
      EncodeAppend(a, front);
      EncodeSnoc(front, last);
      EncodeSnoc(a + front, last);
    }
  }

  lemma RecordsCons(records: seq<seq<string>>)
    requires records != []
    ensures EncodeRecords(records) == EncodeRecord(records[0]) + EncodeRecords(records[1..])
  {
    hide EncodeRecord, EncodeRecords;
    var first := records[0];
    assert records == [first] + records[1..] && [] + [first] == [first];
    EncodeAppend([first], records[1..]);
    EncodeSnoc([], first);
    assert EncodeRecords([]) == "" by { NoRecords(); }
  }

  lemma NoRecords()
    ensures EncodeRecords([]) == ""
  {
  }

  lemma RecordIsText(fields: seq<string>)
    ensures EncodeRecord(fields) != ""
  {
  }

  /** Every list of records with at least one field each is read back as it was written. */
  lemma {:induction false} CsvRoundTrip(records: seq<seq<string>>)
    requires forall i | 0 <= i < |records| :: records[i] != []
    ensures ReadCsv(EncodeRecords(records)) == Some(records)
  {
    if records != [] {
      RecordIsText(records[0]);
      hide *;
      var first, others := records[0], records[1..];
      assert records == [first] + others;
      RecordsCons(records);
      RecordIsRead(first, EncodeRecords(others));
      CsvRoundTrip(others);
      ReadCsvStep(EncodeRecord(first) + EncodeRecords(others), first, EncodeRecords(others));
    }
  }

  lemma ReadCsvStep(s: string, fields: seq<string>, rest: string)
    requires s != "" && ReadRecord(s) == Some((fields, rest)) && ReadCsv(rest).Some?
    ensures ReadCsv(s) == Some([fields] + ReadCsv(rest).value)
  {
    hide ReadRecord;
  }
}
