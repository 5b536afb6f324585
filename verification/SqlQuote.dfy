// SQL quoting: three routines that quote in different ways, each held to
// per-character doubling, and the reading back of what they quote.

module SqlQuote {
  import opened Bytes

  function Quote(s: Text, q: Byte): Text {
    [q] + Doubled(s, q) + [q]
  }

  // Reading a quoted token after its opening quote: a doubled quote is one, a
  // single one ends the token.
  function LexQuoted(s: Text, q: Byte): Option<(Text, Text)>
    decreases |s|
  {
    if s == [] then None
    else if s[0] != q then Push(s[0], LexQuoted(s[1..], q))
    else if |s| > 1 && s[1] == q then Push(q, LexQuoted(s[2..], q))
    else Some(([], s[1..]))
  }

  function Push(c: Byte, r: Option<(Text, Text)>): Option<(Text, Text)> {
    if r.None? then None else Some(([c] + r.value.0, r.value.1))
  }

  lemma LexStep(c: Byte, more: Text, q: Byte)
    ensures LexQuoted((if c == q then [q, q] else [c]) + more, q) == Push(c, LexQuoted(more, q))
  {
    if c == q {
      assert ([q, q] + more)[2..] == more;
    } else {
      assert ([c] + more)[1..] == more;
    }
  }

  // Reading back gives the text and leaves what follows, unless a quote follows.
  lemma {:induction false} LexUndoesQuote(s: Text, q: Byte, rest: Text)
    requires rest == [] || rest[0] != q
    ensures LexQuoted(Doubled(s, q) + ([q] + rest), q) == Some((s, rest))
    decreases |s|
  {
    var t := [q] + rest;
    if s == [] {
      assert Doubled(s, q) + t == t && t[1..] == rest;
    } else {
      LexUndoesQuote(s[1..], q, rest);
      LexStep(s[0], Doubled(s[1..], q) + t, q);
      Assoc(if s[0] == q then [q, q] else [s[0]], Doubled(s[1..], q), t);
      hide LexQuoted;
      assert [s[0]] + s[1..] == s;
    }
  }

  lemma {:induction false} DoubledAbsent(s: Text, q: Byte)
    requires q !in s
    ensures Doubled(s, q) == s
    decreases |s|
  {
    if s != [] { DoubledAbsent(s[1..], q); }
  }

  lemma {:induction false} CountZero(s: Text, q: Byte)
    ensures Count(q, s) == 0 <==> q !in s
    decreases |s|
  {
    if s != [] {
      CountZero(s[1..], q);
      assert q in s <==> q == s[0] || q in s[1..];
    }
  }

  lemma CountStep(s: Text, q: Byte, i: nat)
    requires i < |s|
    ensures Count(q, s[..i + 1]) == Count(q, s[..i]) + if s[i] == q then 1 else 0
    ensures Doubled(s[..i + 1], q) == Doubled(s[..i], q) + if s[i] == q then [q, q] else [s[i]]
  {
    assert s[..i + 1] == s[..i] + [s[i]];
    CountConcat(q, s[..i], [s[i]]);
    DoubledConcat(s[..i], [s[i]], q);
  }

  method CountQuotes(s: Text, q: Byte) returns (n: nat)
    ensures n == Count(q, s)
  {
    n := 0;
    var i := 0;
    while i < |s|
      invariant 0 <= i <= |s| && n == Count(q, s[..i])
    {
      CountStep(s, q, i);
      if s[i] == q { n := n + 1; }
      i := i + 1;
    }
    assert s[..i] == s;
  }

  // ------------------------------------------------------ output_quoted_string

  lemma DoubledRun(s: Text, i: nat, q: Byte)
    requires i <= |s| && q !in s[..i]
    ensures Doubled(s, q) == s[..i] + Doubled(s[i..], q)
  {
    assert s == s[..i] + s[i..];
    DoubledConcat(s[..i], s[i..], q);
    DoubledAbsent(s[..i], q);
  }

  // Printed a run at a time; the result is as if quoted character by character.
  method OutputQuotedString(z: Text) returns (out: Text)
    ensures out == Quote(z, SQUOTE)
  {
    var nSingle := CountQuotes(z, SQUOTE);
    if nSingle == 0 {
      CountZero(z, SQUOTE);
      DoubledAbsent(z, SQUOTE);
      return [SQUOTE] + z + [SQUOTE];
    }
    out := [SQUOTE];
    var rest := z;
    while rest != []
      invariant [SQUOTE] + Doubled(z, SQUOTE) == out + Doubled(rest, SQUOTE)
      decreases |rest|
    {
      var i := RunLength(rest);
      DoubledRun(rest, i, SQUOTE);
      hide Doubled;
      if i == |rest| {
        DoubledNothing(rest[i..], SQUOTE);
        out := out + rest;
        rest := [];
        break;
      }
      DoubledQuote(rest[i..]);
      assert rest[i..][1..] == rest[i + 1..];
      out := out + rest[..i] + [SQUOTE, SQUOTE];
      rest := rest[i + 1..];
    }
    out := out + [SQUOTE];
  }

  lemma DoubledNothing(s: Text, q: Byte)
    requires s == []
    ensures Doubled(s, q) == []
  {
  }

  lemma DoubledQuote(s: Text)
    requires s != [] && s[0] == SQUOTE
    ensures Doubled(s, SQUOTE) == [SQUOTE, SQUOTE] + Doubled(s[1..], SQUOTE)
  {
  }

  method RunLength(s: Text) returns (i: nat)
    ensures i <= |s| && SQUOTE !in s[..i] && (i < |s| ==> s[i] == SQUOTE)
  {
    i := 0;
    while i < |s| && s[i] != SQUOTE
      invariant 0 <= i <= |s| && SQUOTE !in s[..i]
    {
      i := i + 1;
    }
  }

  // ------------------------------------------------- quoting into a buffer

  // Writing s with its quotes doubled from position n on: the buffer's room, one
  // byte per character and per quote, is used up exactly.
  method PutDoubled(z: array<Byte>, n: nat, s: Text, q: Byte) returns (n': nat)
    requires n + |s| + Count(q, s) <= z.Length
    modifies z
    ensures n' == n + |s| + Count(q, s) && z[..n'] == old(z[..n]) + Doubled(s, q)
  {
    n' := n;
    var i := 0;
    while i < |s|
      invariant 0 <= i <= |s| && n' == n + i + Count(q, s[..i])
      invariant n' <= z.Length && z[..n'] == old(z[..n]) + Doubled(s[..i], q)
    {
      CountStep(s, q, i);
      CountPrefix(s, q, i + 1);
      ghost var before := z[..n'];
      z[n'] := s[i];
      n' := n' + 1;
      assert z[..n'] == before + [s[i]];
      if s[i] == q {
        z[n'] := q;
        n' := n' + 1;
        assert z[..n'] == before + [q, q];
      }
      i := i + 1;
    }
    assert s[..i] == s;
  }

  lemma CountPrefix(s: Text, q: Byte, i: nat)
    requires i <= |s|
    ensures Count(q, s[..i]) <= Count(q, s)
  {
    assert s == s[..i] + s[i..];
    CountConcat(q, s[..i], s[i..]);
  }

  method PutByte(z: array<Byte>, n: nat, c: Byte) returns (n': nat)
    requires n < z.Length
    modifies z
    ensures n' == n + 1 && z[..n'] == old(z[..n]) + [c]
  {
    z[n] := c;
    n' := n + 1;
  }

  lemma QuoteAfter(base: Text, s: Text, q: Byte)
    ensures base + [q] + Doubled(s, q) + [q] == base + Quote(s, q)
  {
    hide Doubled;
  }

  // appendText, when memory is granted: the text appended, quoted if a quote
  // character is given.  The length computed first is exactly what is written.
  method AppendText(zIn: Option<Text>, zAppend: Text, quote: Byte) returns (r: Text)
    ensures r == (if zIn.None? then [] else zIn.value) + (if quote == 0 then zAppend else Quote(zAppend, quote))
  {
    hide Doubled, Count;
    var nAppend := |zAppend|;
    var nIn := if zIn.None? then 0 else |zIn.value|;
    var len := nAppend + nIn + 1;
    if quote != 0 {
      len := len + 2;
      var extra := CountQuotes(zAppend, quote);
      len := len + extra;
    }
    var z := new Byte[len];
    var csr := 0;
    if zIn.Some? {
      csr := PutAll(z, 0, zIn.value);
    }
    ghost var base := z[..csr];
    assert base == if zIn.None? then [] else zIn.value;
    if quote != 0 {
      csr := PutByte(z, csr, quote);
      csr := PutDoubled(z, csr, zAppend, quote);
      csr := PutByte(z, csr, quote);
      QuoteAfter(base, zAppend, quote);
    } else {
      csr := PutAll(z, csr, zAppend);
    }
    r := z[..csr];
    csr := PutByte(z, csr, 0);
    assert csr == len;
  }

  method PutAll(z: array<Byte>, n: nat, s: Text) returns (n': nat)
    requires n + |s| <= z.Length
    modifies z
    ensures n' == n + |s| && z[..n'] == old(z[..n]) + s
  {
    n' := n;
    var i := 0;
    while i < |s|
      invariant 0 <= i <= |s| && n' == n + i && z[..n'] == old(z[..n]) + s[..i]
    {
      n' := PutByte(z, n', s[i]);
      assert s[..i + 1] == s[..i] + [s[i]];
      i := i + 1;
    }
    assert s[..i] == s;
  }

  // ------------------------------------------------------------ set_table_name

  predicate IsAlpha(b: int) {
    65 <= b <= 90 || 97 <= b <= 122
  }

  predicate IsNameByte(b: Byte) {
    IsAlpha(b) || 48 <= b <= 57 || b == 95
  }

  // A name that can stand unquoted: an identifier.
  predicate IsIdentifier(name: Text) {
    && name != [] && (IsAlpha(name[0]) || name[0] == 95)
    && forall i :: 0 <= i < |name| ==> IsNameByte(name[i])
  }

  // The first loop: whether quotes are needed, and the length with single quotes
  // doubled.
  method ScanName(name: Text) returns (needQuote: bool, n: nat)
    ensures needQuote <==> !IsIdentifier(name)
    ensures n == |name| + Count(SQUOTE, name)
  {
    needQuote := name == [] || (!IsAlpha(name[0]) && name[0] != 95);
    n := 0;
    var i := 0;
    while i < |name|
      invariant 0 <= i <= |name| && n == i + Count(SQUOTE, name[..i])
      invariant needQuote <==>
        name == [] || (!IsAlpha(name[0]) && name[0] != 95) || exists k :: 0 <= k < i && !IsNameByte(name[k])
    {
      CountStep(name, SQUOTE, i);
      if !IsNameByte(name[i]) {
        needQuote := true;
        if name[i] == SQUOTE { n := n + 1; }
      }
      i := i + 1;
      n := n + 1;
    }
    assert name[..i] == name;
  }

  method SetTableName(zName: Option<Text>) returns (r: Option<Text>)
    ensures r == if zName.None? then None else Some(TableName(zName.value))
  {
    if zName.None? { return None; }
    var name := zName.value;
    var needQuote, n := ScanName(name);
    if !needQuote {
      assert SQUOTE !in name;
      DoubledAbsent(name, SQUOTE);
    }
    hide Doubled, Count, IsIdentifier, IsNameByte;
    if needQuote { n := n + 2; }
    var z := new Byte[n + 1];
    var w := 0;
    assert z[..w] == [];
    if needQuote { w := PutByte(z, w, SQUOTE); }
    w := PutDoubled(z, w, name, SQUOTE);
    if needQuote { w := PutByte(z, w, SQUOTE); }
    assert w == n;
    var text := z[..w];
    assert text == if needQuote then Quote(name, SQUOTE) else Doubled(name, SQUOTE);
    z[w] := 0;
    r := Some(text);
  }

  // The name in the form SetTableName gives it.
  function TableName(name: Text): Text {
    if IsIdentifier(name) then name else Quote(name, SQUOTE)
  }

  // A name is left bare exactly when it is made of letters, digits and
  // underscores and does not start with a digit; any other starts with a quote
  // and reads back.
  lemma TableNameExactly(name: Text)
    ensures var z := TableName(name);
            && z != []
            && (z[0] != 39 <==>
                  && name != [] && !(48 <= name[0] <= 57)
                  && forall i :: 0 <= i < |name| ==>
                       48 <= name[i] <= 57 || 65 <= name[i] <= 90 || 97 <= name[i] <= 122 || name[i] == 95)
            && (z[0] != 39 ==> z == name)
            && (z[0] == 39 ==> LexQuoted(z[1..], 39) == Some((name, [])))
  {
    var z := TableName(name);
    if IsIdentifier(name) {
      assert IsNameByte(name[0]);
    } else {
      LexUndoesQuote(name, SQUOTE, []);
      assert z[1..] == Doubled(name, SQUOTE) + ([SQUOTE] + []);
      hide LexQuoted, Doubled;
      if name != [] && !(48 <= name[0] <= 57) && (IsAlpha(name[0]) || name[0] == 95) {
        assert exists i :: 0 <= i < |name| && !IsNameByte(name[i]);
      }
    }
  }

  // -------------------------------------------------------------- dump_callback

  const SELECT_INSERT: Text := Ascii("SELECT 'INSERT INTO ' || ")
  const VALUES: Text := Ascii(" || ' VALUES(' || ")
  const QUOTE_CALL: Text := Ascii("quote(")
  const NEXT_COLUMN: Text := Ascii("), ")
  const LAST_COLUMN: Text := Ascii(") ")
  const FROM: Text := Ascii("|| ')' FROM  ")

  // The columns, each in a call of quote().
  function ColumnList(columns: seq<Text>): Text {
    if columns == [] then []
    else QUOTE_CALL + (Quote(columns[0], DQUOTE) +
         ((if |columns| == 1 then LAST_COLUMN else NEXT_COLUMN) + ColumnList(columns[1..])))
  }

  // The query whose rows are the INSERT statements of a table. The name is
  // quoted as an identifier inside a quoted string, and as an identifier.
  function DumpQuery(table: Text, columns: seq<Text>): Text {
    SELECT_INSERT + (Quote(Quote(table, DQUOTE), SQUOTE) +
    (VALUES + (ColumnList(columns) + (FROM + Quote(table, DQUOTE)))))
  }

  // Built a piece at a time while stepping through the table's columns; no query
  // when there are none, or when the stepping ended in an error.
  method DumpSelect(table: Text, columns: seq<Text>, finalized: bool) returns (select: Option<Text>)
    ensures select == if columns == [] || !finalized then None else Some(DumpQuery(table, columns))
  {
    hide Quote;
    var text := AppendText(None, SELECT_INSERT, 0);
    assert text == SELECT_INSERT;
    var tmp := AppendText(None, table, DQUOTE);
    assert tmp == Quote(table, DQUOTE);
    text := AppendText(Some(text), tmp, SQUOTE);
    text := AppendText(Some(text), VALUES, 0);
    text := DumpColumns(text, columns);
    if !finalized || |columns| == 0 { return None; }
    text := AppendText(Some(text), FROM, 0);
    text := AppendText(Some(text), table, DQUOTE);
    DumpRegroup(SELECT_INSERT, Quote(Quote(table, DQUOTE), SQUOTE), VALUES, ColumnList(columns),
                FROM, Quote(table, DQUOTE));
    select := Some(text);
  }

  lemma DumpRegroup(a: Text, b: Text, c: Text, d: Text, e: Text, f: Text)
    ensures a + b + c + d + e + f == a + (b + (c + (d + (e + f))))
  {
  }

  method DumpColumns(head: Text, columns: seq<Text>) returns (text: Text)
    ensures text == head + ColumnList(columns)
  {
    hide Quote;
    text := head;
    DropNone(columns);
    var i := 0;
    while i < |columns|
      invariant 0 <= i <= |columns| && head + ColumnList(columns) == text + ColumnList(columns[i..])
    {
      ghost var before, name := text, Quote(columns[i], DQUOTE);
      text := AppendText(Some(text), QUOTE_CALL, 0);
      text := AppendText(Some(text), columns[i], DQUOTE);
      var more := if i + 1 < |columns| then NEXT_COLUMN else LAST_COLUMN;
      text := AppendText(Some(text), more, 0);
      assert columns[i..][1..] == columns[i + 1..];
      ColumnRegroup(before, QUOTE_CALL, name, more, ColumnList(columns[i + 1..]));
      i := i + 1;
    }
    assert columns[i..] == [];
  }

  lemma ColumnRegroup(a: Text, b: Text, c: Text, d: Text, e: Text)
    ensures a + (b + (c + (d + e))) == a + b + c + d + e
  {
  }

  // ---- reading the query back

  // What follows an expected text.
  function Expect(p: Text, s: Text): Option<Text> {
    if p <= s then Some(s[|p|..]) else None
  }

  lemma ExpectGets(p: Text, rest: Text)
    ensures Expect(p, p + rest) == Some(rest)
  {
    assert (p + rest)[|p|..] == rest;
  }

  function LexName(s: Text, q: Byte): Option<(Text, Text)> {
    var t := Expect([q], s);
    if t.None? then None else LexQuoted(t.value, q)
  }

  lemma LexNameUndoesQuote(name: Text, q: Byte, rest: Text)
    requires rest == [] || rest[0] != q
    ensures LexName(Quote(name, q) + rest, q) == Some((name, rest))
  {
    ExpectGets([q], Doubled(name, q) + ([q] + rest));
    LexUndoesQuote(name, q, rest);
    hide Doubled, LexQuoted;
    assert Quote(name, q) + rest == [q] + (Doubled(name, q) + ([q] + rest));
  }

  lemma {:induction false} LexShortens(s: Text, q: Byte)
    ensures LexQuoted(s, q).Some? ==> |LexQuoted(s, q).value.1| < |s|
    decreases |s|
  {
    if s != [] {
      if s[0] != q { LexShortens(s[1..], q); }
      else if |s| > 1 && s[1] == q { LexShortens(s[2..], q); }
    }
  }

  // One call of quote(), and what follows its column name.
  function ParseColumn(s: Text): (r: Option<(Text, Text)>)
    ensures r.Some? ==> |r.value.1| < |s|
  {
    var t := Expect(QUOTE_CALL, s);
    if t.None? then None
    else
      var u := Expect([DQUOTE], t.value);
      if u.None? then None else LexShortens(u.value, DQUOTE); LexQuoted(u.value, DQUOTE)
  }

  function ParseColumns(s: Text): Option<(seq<Text>, Text)>
    decreases |s|
  {
    var c := ParseColumn(s);
    if c.None? then None
    else
      var more, last := Expect(NEXT_COLUMN, c.value.1), Expect(LAST_COLUMN, c.value.1);
      if last.Some? then Some(([c.value.0], last.value))
      else if more.None? then None
      else
        var r := ParseColumns(more.value);
        if r.None? then None else Some(([c.value.0] + r.value.0, r.value.1))
  }

  // The name of the table inserted into, the columns, the table read from.
  function ParseDump(s: Text): Option<(Text, seq<Text>, Text)> {
    var a := Expect(SELECT_INSERT, s);
    if a.None? then None else
    var str := LexName(a.value, SQUOTE);
    if str.None? then None else
    var into := LexName(str.value.0, DQUOTE);
    var b := Expect(VALUES, str.value.1);
    if into.None? || into.value.1 != [] || b.None? then None else
    var cols := ParseColumns(b.value);
    if cols.None? then None else
    var c := Expect(FROM, cols.value.1);
    if c.None? then None else
    var from := LexName(c.value, DQUOTE);
    if from.None? || from.value.1 != [] then None else Some((into.value.0, cols.value.0, from.value.0))
  }

  lemma ParseColumnBack(column: Text, rest: Text)
    requires rest == [] || rest[0] != DQUOTE
    ensures ParseColumn(QUOTE_CALL + (Quote(column, DQUOTE) + rest)) == Some((column, rest))
  {
    ExpectGets(QUOTE_CALL, Quote(column, DQUOTE) + rest);
    LexNameUndoesQuote(column, DQUOTE, rest);
    hide Quote, LexQuoted;
  }

  lemma {:induction false} ColumnsRecovered(columns: seq<Text>, rest: Text)
    requires columns != []
    ensures ParseColumns(ColumnList(columns) + rest) == Some((columns, rest))
    decreases |columns|
  {
    hide Quote, ParseColumn, ParseColumns, Expect, Ascii, ColumnList;
    var sep := if |columns| == 1 then LAST_COLUMN else NEXT_COLUMN;
    var more := ColumnList(columns[1..]) + rest;
    var name := Quote(columns[0], DQUOTE);
    ColumnListSplit(columns, rest);
    ParseColumnBack(columns[0], sep + more);
    ParseColumnsStep(QUOTE_CALL + (name + (sep + more)), columns[0], more, |columns| == 1);
    if |columns| > 1 { ColumnsRecovered(columns[1..], rest); }
    HeadAndTail(columns);
  }

  lemma HeadAndTail<T>(s: seq<T>)
    requires s != []
    ensures s == [s[0]] + s[1..] && (|s| == 1 ==> s == [s[0]])
  {
  }

  lemma ColumnListSplit(columns: seq<Text>, rest: Text)
    requires columns != []
    ensures ColumnList(columns) + rest ==
            QUOTE_CALL + (Quote(columns[0], DQUOTE) +
            ((if |columns| == 1 then LAST_COLUMN else NEXT_COLUMN) + (ColumnList(columns[1..]) + rest)))
    ensures |columns| == 1 ==> ColumnList(columns[1..]) + rest == rest
  {
    hide Quote, Ascii;
    var sep := if |columns| == 1 then LAST_COLUMN else NEXT_COLUMN;
    RestRegroup(QUOTE_CALL, Quote(columns[0], DQUOTE), sep, ColumnList(columns[1..]), rest);
  }

  lemma RestRegroup(a: Text, b: Text, c: Text, d: Text, e: Text)
    ensures (a + (b + (c + d))) + e == a + (b + (c + (d + e)))
  {
  }

  lemma ParseColumnsStep(s: Text, column: Text, more: Text, last: bool)
    requires ParseColumn(s) == Some((column, (if last then LAST_COLUMN else NEXT_COLUMN) + more))
    ensures last ==> ParseColumns(s) == Some(([column], more))
    ensures !last && ParseColumns(more).Some? ==>
              ParseColumns(s) == Some(([column] + ParseColumns(more).value.0, ParseColumns(more).value.1))
  {
    var sep := if last then LAST_COLUMN else NEXT_COLUMN;
    ExpectGets(sep, more);
    assert (sep + more)[1] == sep[1];
    assert LAST_COLUMN <= sep + more ==> LAST_COLUMN[1] == (sep + more)[1];
    hide ParseColumn;
  }

  // Reading the query gives back the table and all its columns in order,
  // whatever quotes and separators their names contain.
  lemma DumpRecovered(table: Text, columns: seq<Text>)
    requires columns != []
    ensures ParseDump(DumpQuery(table, columns)) == Some((table, columns, table))
  {
    hide Quote, LexName, ParseColumns, Expect;
    var from := Quote(table, DQUOTE);
    var cols := ColumnList(columns) + (FROM + from);
    ExpectGets(SELECT_INSERT, Quote(Quote(table, DQUOTE), SQUOTE) + (VALUES + cols));
    LexNameUndoesQuote(Quote(table, DQUOTE), SQUOTE, VALUES + cols);
    LexNameUndoesQuote(table, DQUOTE, []);
    assert from + [] == from;
    ExpectGets(VALUES, cols);
    ColumnsRecovered(columns, FROM + from);
    ExpectGets(FROM, from);
  }
}
