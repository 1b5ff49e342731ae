/** CSV output with quoting, and a reader that recovers the fields. */
module Csv {
  import opened Wrappers

  const QUOTE: char := '\"'

  predicate NeedsQuoting(field: string) {
    exists k | 0 <= k < |field| :: Special(field[k])
  }

  predicate Special(c: char) {
    c == ' ' || c == QUOTE || c == '\n' || c == ','
  }

  /** Every quote doubled. */
  function Doubled(field: string): string {
    if field == [] then []
    else (if field[0] == QUOTE then [QUOTE, QUOTE] else [field[0]]) + Doubled(field[1..])
  }

  function FieldText(field: string): string {
    if NeedsQuoting(field) then [QUOTE] + Doubled(field) + [QUOTE] else field
  }

  /** A field is put out bare exactly when it has no blank, quote, newline or comma. */
  lemma BareField(field: string)
    ensures FieldText(field) == field
            <==> ' ' !in field && '\"' !in field && '\n' !in field && ',' !in field
  {
    DoubledLonger(field);
  }

  lemma {:induction false} DoubledLonger(field: string)
    ensures |field| <= |Doubled(field)|
  {
    if field != [] { DoubledLonger(field[1..]); }
  }

  /** Fields with commas between them. */
  function RowText(row: seq<string>): string {
    if row == [] then []
    else if |row| == 1 then FieldText(row[0])
    else FieldText(row[0]) + "," + RowText(row[1..])
  }

  function FileText(rows: seq<seq<string>>): string {
    if rows == [] then [] else RowText(rows[0]) + "\n" + FileText(rows[1..])
  }

  // ---- A reader after section 2 of RFC 4180, with LF as the record end

  /** The rest of a quoted field: its content, and what follows the closing quote. */
  function ReadQuoted(s: string): (r: Option<(string, string)>)
    ensures r.Some? ==> |r.value.1| < |s|
  {
    if s == [] then None
    else if s[0] != QUOTE then
      var r := ReadQuoted(s[1..]);
      if r.None? then None else Some(([s[0]] + r.value.0, r.value.1))
    else if 2 <= |s| && s[1] == QUOTE then
      var r := ReadQuoted(s[2..]);
      if r.None? then None else Some(([QUOTE] + r.value.0, r.value.1))
    else Some(([], s[1..]))
  }

  /** A field without quotes: up to a comma or the end of the record. */
  function ReadPlain(s: string): (r: Option<(string, string)>)
    ensures r.Some? ==> |r.value.1| <= |s|
  {
    if s == [] || s[0] == ',' || s[0] == '\n' then Some(([], s))
    else if s[0] == QUOTE then None
    else
      var r := ReadPlain(s[1..]);
      if r.None? then None else Some(([s[0]] + r.value.0, r.value.1))
  }

  function ReadField(s: string): (r: Option<(string, string)>)
    ensures r.Some? ==> |r.value.1| <= |s|
  {
    if s != [] && s[0] == QUOTE then ReadQuoted(s[1..]) else ReadPlain(s)
  }

  /** One record, which ends at a newline. */
  function ReadRow(s: string): (r: Option<(seq<string>, string)>)
    ensures r.Some? ==> |r.value.1| < |s|
    decreases |s|
  {
    var f := ReadField(s);
    if f.None? || f.value.1 == [] then None
    else
      var (field, rest) := f.value;
      if rest[0] == '\n' then Some(([field], rest[1..]))
      else if rest[0] != ',' then None
      else
        var more := ReadRow(rest[1..]);
        if more.None? then None else Some(([field] + more.value.0, more.value.1))
  }

  function ReadFile(s: string): Option<seq<seq<string>>>
    decreases |s|
  {
    if s == [] then Some([])
    else
      var row := ReadRow(s);
      if row.None? then None
      else
        var more := ReadFile(row.value.1);
        if more.None? then None else Some([row.value.0] + more.value)
  }

  predicate EndsField(rest: string) {
    rest != [] && (rest[0] == ',' || rest[0] == '\n')
  }

  lemma {:induction false} ReadDoubled(field: string, rest: string)
    requires EndsField(rest)
    ensures ReadQuoted(Doubled(field) + [QUOTE] + rest) == Some((field, rest))
    decreases |field|
  {
    var s := Doubled(field) + [QUOTE] + rest;
    if field == [] {
      assert s == [QUOTE] + rest;
      assert s[1..] == rest;
    } else {
      var more := Doubled(field[1..]) + [QUOTE] + rest;
      ReadDoubled(field[1..], rest);
      assert field == [field[0]] + field[1..];
      if field[0] == QUOTE {
        assert s == [QUOTE, QUOTE] + more;
        assert s[2..] == more;
      } else {
        assert s == [field[0]] + more;
        assert s[1..] == more;
      }
    }
  }

  lemma {:induction false} ReadUnquoted(field: string, rest: string)
    requires EndsField(rest) && !NeedsQuoting(field)
    ensures ReadPlain(field + rest) == Some((field, rest))
    decreases |field|
  {
    if field == [] {
      assert field + rest == rest;
    } else {
      assert Special(field[0]) ==> NeedsQuoting(field);
      assert forall k | 0 <= k < |field| - 1 :: field[1..][k] == field[k + 1] && !Special(field[k + 1]);
      assert (field + rest)[1..] == field[1..] + rest;
      ReadUnquoted(field[1..], rest);
      assert field == [field[0]] + field[1..];
    }
  }

  /** Whatever a field holds, it is read back from its text. */
  lemma FieldRoundTrip(field: string, rest: string)
    requires EndsField(rest)
    ensures ReadField(FieldText(field) + rest) == Some((field, rest))
  {
    hide ReadQuoted, ReadPlain, Doubled;
    var s := FieldText(field) + rest;
    if NeedsQuoting(field) {
      assert s == [QUOTE] + (Doubled(field) + [QUOTE] + rest);
      assert s[1..] == Doubled(field) + [QUOTE] + rest;
      ReadDoubled(field, rest);
    } else {
      ReadUnquoted(field, rest);
      if field != [] { assert s[0] == field[0] && (Special(field[0]) ==> NeedsQuoting(field)); }
    }
  }

  lemma {:induction false} RowRoundTrip(row: seq<string>, rest: string)
    requires row != []
    ensures ReadRow(RowText(row) + "\n" + rest) == Some((row, rest))
    decreases |row|
  {
    hide ReadField, FieldText;
    if |row| == 1 {
      var end := "\n" + rest;
      FieldRoundTrip(row[0], end);
      assert RowText(row) + "\n" + rest == FieldText(row[0]) + end && end[1..] == rest;
      assert [row[0]] == row;
    } else {
      var end := "," + (RowText(row[1..]) + "\n" + rest);
      FieldRoundTrip(row[0], end);
      assert RowText(row) + "\n" + rest == FieldText(row[0]) + end;
      assert end[1..] == RowText(row[1..]) + "\n" + rest;
      RowRoundTrip(row[1..], rest);
      assert [row[0]] + row[1..] == row;
    }
  }

  /** Any number of rows of any fields is recovered exactly. */
  lemma {:induction false} CsvRoundTrip(rows: seq<seq<string>>)
    requires forall k | 0 <= k < |rows| :: rows[k] != []
    ensures ReadFile(FileText(rows)) == Some(rows)
    decreases |rows|
  {
    if rows != [] {
      hide ReadRow, RowText;
      RowRoundTrip(rows[0], FileText(rows[1..]));
      CsvRoundTrip(rows[1..]);
      assert [rows[0]] + rows[1..] == rows;
    }
  }

  /** The output functions of the tools: characters in order, and a count of the fields on the
      current line. */
  class Output {
    var text: string
    var field: nat

    constructor ()
      ensures text == "" && field == 0
    {
      text, field := "", 0;
    }

    method Putchar(c: char)
      modifies this`text
      ensures text == old(text) + [c]
    {
      text := text + [c];
    }

    /** One field, quoted when it has to be. */
    method WriteCsvField(s: string)
      modifies this`text
      ensures text == old(text) + FieldText(s)
    {
      var i, needsQuoting := 0, false;
      while i < |s|
        invariant i <= |s| && !needsQuoting
        invariant forall k | 0 <= k < i :: !Special(s[k])
      {
        if Special(s[i]) {
          needsQuoting := true;
          break;
        }
        i := i + 1;
      }
      assert needsQuoting <==> NeedsQuoting(s);
      if !needsQuoting {
        text := text + s;
        return;
      }
      Putchar(QUOTE);
      ghost var start := text;
      i := 0;
      while i < |s|
        invariant i <= |s| && text + Doubled(s[i..]) == start + Doubled(s)
      {
        assert s[i..][1..] == s[i + 1..];
        ghost var before := text;
        Putchar(s[i]);
        if s[i] == QUOTE { Putchar(QUOTE); }
        assert text + Doubled(s[i + 1..]) == before + Doubled(s[i..]);
        i := i + 1;
      }
      assert text + [] == text;
      Putchar(QUOTE);
      assert text == old(text) + ([QUOTE] + Doubled(s) + [QUOTE]);
    }

    method StartLine()
      modifies this`field
      ensures field == 0
    {
      field := 0;
    }

    /** The separator before every field of a line but the first. */
    method NextField()
      modifies this
      ensures field == old(field) + 1 && text == old(text) + if old(field) == 0 then "" else ","
    {
      field := field + 1;
      if field == 1 { return; }
      Putchar(',');
    }

    method OutputString(s: string)
      modifies this
      ensures field == old(field) + 1
      ensures text == old(text) + (if old(field) == 0 then "" else ",") + FieldText(s)
    {
      NextField();
      WriteCsvField(s);
    }

    /** A whole line of fields, as the callers of the functions above produce it. */
    method OutputLine(row: seq<string>)
      requires row != []
      modifies this
      ensures text == old(text) + FileText([row])
    {
      hide FieldText;
      ghost var start := text;
      StartLine();
      var i := 0;
      while i < |row|
        invariant i <= |row| && field == i && text == start + RowText(row[..i])
      {
        ghost var before := text;
        OutputString(row[i]);
        RowLast(row[..i], row[i]);
        assert row[..i + 1] == row[..i] + [row[i]];
        assert text == start + RowText(row[..i + 1]);
        i := i + 1;
      }
      assert row[..i] == row;
      Putchar('\n');
      assert FileText([row]) == RowText(row) + "\n" + FileText([]) == RowText(row) + "\n";
    }
  }

  lemma {:induction false} RowLast(row: seq<string>, last: string)
    ensures RowText(row + [last]) == RowText(row) + (if row == [] then "" else ",") + FieldText(last)
    decreases |row|
  {
    hide FieldText;
    var r := row + [last];
    if row == [] {
      assert r == [last];
    } else {
      assert r[1..] == row[1..] + [last] && r[0] == row[0];
      RowLast(row[1..], last);
      assert RowText(r) == FieldText(row[0]) + "," + RowText(row[1..] + [last]);
    }
  }
}
