// The CSV dialect of the shell: what the writer emits for a field, a row and a
// table, and what the reader makes of an arbitrary byte stream.

module CsvFormat {
  import opened Bytes

  // ---------------------------------------------------------------- writing

  // The bytes that force a field into quotes (the needCsvQuote table).
  predicate NeedCsvQuote(b: Byte) {
    b <= 32 || b == DQUOTE || b == SQUOTE || b >= 127
  }

  predicate NeedsQuoting(z: Text, colSep: Text) {
    z == [] ||
    exists i :: 0 <= i < |z| && ForcesQuote(z, i, colSep)
  }

  // A byte that starts the separator counts only if the separator is that one
  // byte, or the field as a whole starts with the separator.
  predicate ForcesQuote(z: Text, i: nat, colSep: Text)
    requires i < |z|
  {
    NeedCsvQuote(z[i]) ||
    (colSep != [] && z[i] == colSep[0] && (|colSep| == 1 || colSep <= z))
  }

  function EncodeField(z: Text, colSep: Text): Text {
    if NeedsQuoting(z, colSep) then [DQUOTE] + Doubled(z, DQUOTE) + [DQUOTE] else z
  }

  // The separators in force, and the text that stands for NULL.
  datatype Style = Style(colSep: Text, rowSep: Text, nullValue: Text)

  // A separator the round trip is promised for.
  predicate PlainSep(sep: Byte) {
    0 < sep < 128 && sep != DQUOTE && sep != CR && sep != LF
  }

  // One separator byte, and rows ended by LF or CRLF.
  predicate PlainStyle(style: Style) {
    |style.colSep| == 1 && PlainSep(style.colSep[0]) && (style.rowSep == [LF] || style.rowSep == [CR, LF])
  }

  // A value; None is an SQL NULL, written as it is.
  function EncodeValue(v: Option<Text>, style: Style): Text {
    if v.None? then style.nullValue else EncodeField(v.value, style.colSep)
  }

  function EncodeRow(row: seq<Option<Text>>, style: Style): Text {
    if |row| == 0 then []
    else if |row| == 1 then EncodeValue(row[0], style) + style.rowSep
    else EncodeValue(row[0], style) + style.colSep + EncodeRow(row[1..], style)
  }

  function EncodeTable(table: seq<seq<Option<Text>>>, style: Style): Text {
    if table == [] then [] else EncodeRow(table[0], style) + EncodeTable(table[1..], style)
  }

  // Tables are written one row after the other.
  lemma {:induction false} EncodeTableAppend(table: seq<seq<Option<Text>>>, row: seq<Option<Text>>, style: Style)
    ensures EncodeTable(table + [row], style) == EncodeTable(table, style) + EncodeRow(row, style)
    decreases |table|
  {
    hide EncodeRow;
    if table == [] {
      assert table + [row] == [row];
      assert [row][1..] == [];
    } else {
      assert (table + [row])[0] == table[0] && (table + [row])[1..] == table[1..] + [row];
      EncodeTableAppend(table[1..], row, style);
      Assoc(EncodeRow(table[0], style), EncodeTable(table[1..], style), EncodeRow(row, style));
    }
  }

  // ---------------------------------------------------------------- reading

  // One field as the reader leaves it: the text (None at end of file), the
  // character that ended it, the unread input and the row separators counted.
  datatype Field = Field(text: Option<Text>, term: int, rest: Text, lines: nat)

  function Bump(c: int, rSep: int): nat {
    if c == rSep then 1 else 0
  }

  // The two characters of history kept while inside quotes.
  ghost predicate History(acc: Text, pc: int, ppc: int) {
    (pc != 0 ==> |acc| >= 1 && acc[|acc| - 1] == pc) &&
    (ppc != 0 ==> |acc| >= 2 && acc[|acc| - 2] == ppc)
  }

  predicate ClosesField(c: int, pc: int, ppc: int, cSep: int, rSep: int) {
    || (c == cSep && pc == DQUOTE)
    || (c == rSep && pc == DQUOTE)
    || (c == rSep && pc == CR && ppc == DQUOTE)
    || (c == EOF && pc == DQUOTE)
  }

  // Drop bytes from the end, up to and including the last quote.
  function StripToQuote(acc: Text): Text
    requires DQUOTE in acc
  {
    var k := |acc| - 1;
    if acc[k] == DQUOTE then acc[..k] else StripToQuote(acc[..k])
  }

  function ReadQuoted(s: Text, acc: Text, pc: int, ppc: int, lines: nat, cSep: int, rSep: int): Field
    requires History(acc, pc, ppc)
    decreases |s|
  {
    var c := if s == [] then EOF else s[0];
    var lines' := lines + Bump(c, rSep);
    if c == DQUOTE && pc == DQUOTE then
      ReadQuoted(s[1..], acc, 0, ppc, lines', cSep, rSep)
    else if ClosesField(c, pc, ppc, cSep, rSep) then
      Field(Some(StripToQuote(acc)), c, if s == [] then [] else s[1..], lines')
    else if s == [] then
      Field(Some(acc), EOF, [], lines')
    else
      ReadQuoted(s[1..], acc + [s[0]], c, pc, lines', cSep, rSep)
  }

  function ReadPlain(s: Text, acc: Text, cSep: int, rSep: int): Field
    decreases |s|
  {
    if s == [] then
      Field(Some(acc), EOF, [], Bump(EOF, rSep))
    else if s[0] == cSep || s[0] == rSep then
      var strip := s[0] == rSep && acc != [] && acc[|acc| - 1] == CR;
      Field(Some(if strip then acc[..|acc| - 1] else acc), s[0], s[1..], Bump(s[0], rSep))
    else
      ReadPlain(s[1..], acc + [s[0]], cSep, rSep)
  }

  function ReadField(s: Text, cSep: int, rSep: int): Field {
    if s == [] then Field(None, EOF, [], 0)
    else if s[0] == DQUOTE then ReadQuoted(s[1..], [], 0, 0, 0, cSep, rSep)
    else ReadPlain(s, [], cSep, rSep)
  }

  // A record: the fields up to the first one not ended by the column separator.
  datatype Record = Record(fields: seq<Option<Text>>, term: int, rest: Text)

  function ReadRecord(s: Text, cSep: int, rSep: int): (r: Record)
    requires cSep != EOF && rSep != EOF
    ensures r.fields != [] && r.term != cSep
    ensures |r.rest| <= |s| && (s != [] ==> |r.rest| < |s|)
    ensures s != [] ==> r.fields[0].Some?
    ensures r.term == EOF ==> r.rest == []
    decreases |s|
  {
    var f := ReadField(s, cSep, rSep);
    ReadConsumes(s, cSep, rSep);
    if f.term != cSep then Record([f.text], f.term, f.rest)
    else
      var r := ReadRecord(f.rest, cSep, rSep);
      Record([f.text] + r.fields, r.term, r.rest)
  }

  // Every field read from the stream, each with the character that ended it,
  // down to the read that reports end of file.
  function ReadAll(s: Text, cSep: int, rSep: int): seq<(Option<Text>, int)>
    requires cSep != EOF && rSep != EOF
    decreases |s|
  {
    var f := ReadField(s, cSep, rSep);
    ReadConsumes(s, cSep, rSep);
    [(f.text, f.term)] + if s == [] then [] else ReadAll(f.rest, cSep, rSep)
  }

  // The text a value reads back as: NULL comes back as the text that stands for
  // it.
  function Shown(v: Option<Text>, nullValue: Text): Text {
    if v.None? then nullValue else v.value
  }

  function ShownRow(row: seq<Option<Text>>, nullValue: Text): (r: seq<Option<Text>>)
    ensures |r| == |row| && forall i :: 0 <= i < |r| ==> r[i] == Some(Shown(row[i], nullValue))
    ensures r == row <==> None !in row
  {
    if row == [] then [] else [Some(Shown(row[0], nullValue))] + ShownRow(row[1..], nullValue)
  }

  // What a table should read back as.
  function RowEvents(row: seq<Option<Text>>, sep: Byte, nullValue: Text): seq<(Option<Text>, int)> {
    if row == [] then []
    else [(Some(Shown(row[0], nullValue)), if |row| == 1 then LF else sep)] + RowEvents(row[1..], sep, nullValue)
  }

  function TableEvents(table: seq<seq<Option<Text>>>, sep: Byte, nullValue: Text): seq<(Option<Text>, int)> {
    if table == [] then [(None, EOF)]
    else RowEvents(table[0], sep, nullValue) + TableEvents(table[1..], sep, nullValue)
  }

  // ------------------------------------------------ facts about every stream

  // The unread input is a suffix; the terminator is the last byte consumed (one
  // of the two separators), or end of file with everything consumed.
  ghost predicate Consumes(s: Text, f: Field, cSep: int, rSep: int) {
    && |f.rest| <= |s| && f.rest == s[|s| - |f.rest|..]
    && (f.term == EOF ==> f.rest == [])
    && (f.term != EOF ==> |f.rest| < |s| && f.term == s[|s| - |f.rest| - 1] && (f.term == cSep || f.term == rSep))
  }

  // One character of the quoted reader.
  lemma ReadQuotedStep(s: Text, acc: Text, pc: int, ppc: int, lines: nat, cSep: int, rSep: int)
    requires History(acc, pc, ppc)
    ensures var f := ReadQuoted(s, acc, pc, ppc, lines, cSep, rSep);
            var c := if s == [] then EOF else s[0];
            var lines' := lines + Bump(c, rSep);
            if c == DQUOTE && pc == DQUOTE then
              f == ReadQuoted(s[1..], acc, 0, ppc, lines', cSep, rSep)
            else if ClosesField(c, pc, ppc, cSep, rSep) then
              f == Field(Some(StripToQuote(acc)), c, if s == [] then [] else s[1..], lines')
            else if s == [] then
              f == Field(Some(acc), EOF, [], lines')
            else
              f == ReadQuoted(s[1..], acc + [s[0]], c, pc, lines', cSep, rSep)
  {
    hide StripToQuote;
  }

  // Consumed, with the row separators consumed added to the line count.
  ghost predicate Tallied(s: Text, f: Field, lines: nat, cSep: int, rSep: int) {
    && f.text.Some? && Consumes(s, f, cSep, rSep)
    && f.lines == lines + Count(rSep, s[..|s| - |f.rest|])
  }

  lemma TallyOneMore(s: Text, f: Field, lines: nat, cSep: int, rSep: int)
    requires s != [] && Tallied(s[1..], f, lines + Bump(s[0], rSep), cSep, rSep)
    ensures Tallied(s, f, lines, cSep, rSep)
  {
    var k := |s| - |f.rest|;
    assert s[..k][1..] == s[1..][..k - 1];
  }

  lemma TallyLast(s: Text, f: Field, lines: nat, cSep: int, rSep: int)
    requires cSep != EOF && rSep != EOF && f.text.Some?
    requires if s == [] then f.rest == [] && f.term == EOF
             else f.rest == s[1..] && f.term == s[0] && (f.term == cSep || f.term == rSep)
    requires f.lines == lines + Bump(f.term, rSep)
    ensures Tallied(s, f, lines, cSep, rSep)
  {
    if s != [] { assert s[..1] == [s[0]]; }
  }

  lemma {:induction false} ReadQuotedTallied(s: Text, acc: Text, pc: int, ppc: int, lines: nat, cSep: int, rSep: int)
    requires History(acc, pc, ppc) && cSep != EOF && rSep != EOF
    ensures Tallied(s, ReadQuoted(s, acc, pc, ppc, lines, cSep, rSep), lines, cSep, rSep)
    decreases |s|
  {
    ReadQuotedStep(s, acc, pc, ppc, lines, cSep, rSep);
    hide ReadQuoted, StripToQuote, Tallied;
    var f := ReadQuoted(s, acc, pc, ppc, lines, cSep, rSep);
    var c := if s == [] then EOF else s[0];
    if c == DQUOTE && pc == DQUOTE {
      ReadQuotedTallied(s[1..], acc, 0, ppc, lines + Bump(c, rSep), cSep, rSep);
      TallyOneMore(s, f, lines, cSep, rSep);
    } else if s == [] || ClosesField(c, pc, ppc, cSep, rSep) {
      TallyLast(s, f, lines, cSep, rSep);
    } else {
      ReadQuotedTallied(s[1..], acc + [s[0]], c, pc, lines + Bump(c, rSep), cSep, rSep);
      TallyOneMore(s, f, lines, cSep, rSep);
    }
  }

  lemma {:induction false} ReadPlainTallied(s: Text, acc: Text, cSep: int, rSep: int)
    requires cSep != EOF && rSep != EOF
    ensures Tallied(s, ReadPlain(s, acc, cSep, rSep), 0, cSep, rSep)
    ensures s != [] ==> |ReadPlain(s, acc, cSep, rSep).rest| < |s|
    decreases |s|
  {
    hide Tallied;
    var f := ReadPlain(s, acc, cSep, rSep);
    if s == [] || s[0] == cSep || s[0] == rSep {
      TallyLast(s, f, 0, cSep, rSep);
    } else {
      ReadPlainTallied(s[1..], acc + [s[0]], cSep, rSep);
      TallyOneMore(s, f, 0, cSep, rSep);
      TalliedShrinks(s[1..], f, 0, cSep, rSep);
    }
  }

  lemma TalliedShrinks(s: Text, f: Field, lines: nat, cSep: int, rSep: int)
    requires Tallied(s, f, lines, cSep, rSep)
    ensures |f.rest| <= |s|
  {
  }

  // On every byte stream: a field is read unless the input is empty, reading
  // makes progress, and the line count grows by the row separators consumed,
  // except that an opening quote which is itself the row separator is missed.
  lemma {:induction false} ReadConsumes(s: Text, cSep: int, rSep: int)
    requires cSep != EOF && rSep != EOF
    ensures var f := ReadField(s, cSep, rSep);
            && (f.text.None? <==> s == [])
            && Consumes(s, f, cSep, rSep) && (s != [] ==> |f.rest| < |s|)
            && f.lines + (if s != [] && s[0] == DQUOTE == rSep then 1 else 0) == Count(rSep, s[..|s| - |f.rest|])
  {
    hide ReadQuoted, ReadPlain;
    if s == [] {
    } else if s[0] == DQUOTE {
      var f := ReadField(s, cSep, rSep);
      ReadQuotedTallied(s[1..], [], 0, 0, 0, cSep, rSep);
      var k := |s| - |f.rest|;
      assert s[..k][1..] == s[1..][..k - 1];
    } else {
      ReadPlainTallied(s, [], cSep, rSep);
    }
  }

  // How many bytes of s an unquoted field found in it takes.
  ghost function Width(s: Text, f: Field): int {
    |s| - |f.rest| - if f.term == EOF then 0 else 1
  }

  // The text of an unquoted field, on every stream: the bytes up to the first
  // separator of either kind or the end, without the CR before a row separator.
  ghost predicate PlainText(s: Text, f: Field, cSep: int, rSep: int) {
    var k := Width(s, f);
    && 0 <= k <= |s| && (k < |s| <==> f.term != EOF)
    && cSep !in s[..k] && rSep !in s[..k]
    && f.text == Some(if f.term == rSep && k > 0 && s[k - 1] == 13 then s[..k - 1] else s[..k])
  }

  lemma {:induction false} PlainFieldText(s: Text, cSep: int, rSep: int)
    requires cSep != EOF && rSep != EOF && s != [] && s[0] != DQUOTE
    ensures PlainText(s, ReadField(s, cSep, rSep), cSep, rSep)
  {
    PlainFieldFrom(s, 0, cSep, rSep);
    assert s[0..] == s && s[..0] == [];
  }

  lemma {:induction false} PlainFieldFrom(s: Text, i: nat, cSep: int, rSep: int)
    requires cSep != EOF && rSep != EOF && i <= |s| && cSep !in s[..i] && rSep !in s[..i]
    ensures PlainText(s, ReadPlain(s[i..], s[..i], cSep, rSep), cSep, rSep)
    decreases |s| - i
  {
    if i == |s| {
      assert s[i..] == [] && s[..i] == s;
    } else {
      assert s[i..][1..] == s[i + 1..] && s[..i + 1] == s[..i] + [s[i]];
      if s[i] != cSep && s[i] != rSep {
        PlainFieldFrom(s, i + 1, cSep, rSep);
      } else if i > 0 {
        assert s[..i][i - 1] == s[i - 1] && s[..i][..i - 1] == s[..i - 1];
      }
    }
  }

  // What is unread when the last field of the first record is about to be read.
  function LastField(s: Text, cSep: int, rSep: int): Text
    requires cSep != EOF && rSep != EOF
    decreases |s|
  {
    var f := ReadField(s, cSep, rSep);
    ReadConsumes(s, cSep, rSep);
    if f.term != cSep then s else LastField(f.rest, cSep, rSep)
  }

  // A record holds a NULL only in its last place, and exactly when the separator
  // that ended the field before it is the last byte of the input. Without quotes
  // that is any input read to its end whose last byte is the separator.
  lemma {:induction false} TrailingSeparatorIsNull(s: Text, cSep: int, rSep: int)
    requires cSep != EOF && rSep != EOF && s != []
    ensures var rec := ReadRecord(s, cSep, rSep);
            var last := rec.fields[|rec.fields| - 1];
            && (forall i :: 0 <= i < |rec.fields| - 1 ==> rec.fields[i].Some?)
            && (last.None? <==> LastField(s, cSep, rSep) == [])
            && (last.None? ==> rec.term == EOF && s[|s| - 1] == cSep)
            && (rec.term == EOF && DQUOTE !in s ==> (last.None? <==> s[|s| - 1] == cSep))
    decreases |s|
  {
    var f := ReadField(s, cSep, rSep);
    var rec := ReadRecord(s, cSep, rSep);
    ReadConsumes(s, cSep, rSep);
    hide ReadField;
    if f.term != cSep {
      if f.term == EOF && DQUOTE !in s {
        UnquotedIsPlain(s, cSep, rSep);
        PlainToTheEnd(s, [], cSep, rSep);
      }
    } else if f.rest == [] {
      assert ReadRecord([], cSep, rSep).fields == [None] by { NothingLeft(cSep, rSep); }
    } else {
      TrailingSeparatorIsNull(f.rest, cSep, rSep);
      assert s[|s| - 1] == f.rest[|f.rest| - 1];
      var more := ReadRecord(f.rest, cSep, rSep);
      assert rec.fields == [f.text] + more.fields;
      assert DQUOTE !in s ==> DQUOTE !in f.rest;
    }
  }

  lemma NothingLeft(cSep: int, rSep: int)
    requires cSep != EOF && rSep != EOF
    ensures ReadRecord([], cSep, rSep) == Record([None], EOF, [])
    ensures LastField([], cSep, rSep) == []
  {
  }

  lemma UnquotedIsPlain(s: Text, cSep: int, rSep: int)
    requires s != [] && DQUOTE !in s
    ensures ReadField(s, cSep, rSep) == ReadPlain(s, [], cSep, rSep)
  {
  }

  lemma {:induction false} PlainToTheEnd(s: Text, acc: Text, cSep: int, rSep: int)
    requires cSep != EOF && rSep != EOF && ReadPlain(s, acc, cSep, rSep).term == EOF
    ensures cSep !in s
    decreases |s|
  {
    if s != [] { PlainToTheEnd(s[1..], acc + [s[0]], cSep, rSep); }
  }
}
