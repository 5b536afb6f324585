// Writing and reading CSV: what is written comes back, field by field, row by row
// and table by table.

module CsvRoundTrip {
  import opened Bytes
  import opened CsvFormat

  // ------------------------------------------------------------------- fields

  lemma ReadOrdinary(x: Byte, acc: Text, pc: int, ppc: int, lines: nat, sep: Byte, next: Text)
    requires History(acc, pc, ppc) && pc != DQUOTE && ppc != DQUOTE && x != DQUOTE
    ensures ReadQuoted([x] + next, acc, pc, ppc, lines, sep, LF)
         == ReadQuoted(next, acc + [x], x, pc, lines + Bump(x, LF), sep, LF)
  {
    assert ([x] + next)[1..] == next;
  }

  lemma ReadPair(acc: Text, pc: int, ppc: int, lines: nat, sep: Byte, next: Text)
    requires History(acc, pc, ppc) && pc != DQUOTE && PlainSep(sep)
    ensures ReadQuoted([DQUOTE, DQUOTE] + next, acc, pc, ppc, lines, sep, LF)
         == ReadQuoted(next, acc + [DQUOTE], 0, pc, lines, sep, LF)
  {
    var s := [DQUOTE, DQUOTE] + next;
    assert s[1..] == [DQUOTE] + next && s[1..][1..] == next;
  }

  // Doubling never lets the reader out of the quotes.
  lemma {:induction false} ReadDoubled(z: Text, acc: Text, pc: int, ppc: int, lines: nat, sep: Byte, tail: Text)
    returns (pc': int, ppc': int)
    requires History(acc, pc, ppc) && pc != DQUOTE && ppc != DQUOTE && PlainSep(sep)
    ensures History(acc + z, pc', ppc') && pc' != DQUOTE && ppc' != DQUOTE
    ensures ReadQuoted(Doubled(z, DQUOTE) + tail, acc, pc, ppc, lines, sep, LF)
         == ReadQuoted(tail, acc + z, pc', ppc', lines + Count(LF, z), sep, LF)
    decreases |z|
  {
    hide ReadQuoted;
    if z == [] {
      assert Doubled(z, DQUOTE) + tail == tail && acc + z == acc;
      pc', ppc' := pc, ppc;
    } else {
      var next := Doubled(z[1..], DQUOTE) + tail;
      assert acc + z == (acc + [z[0]]) + z[1..];
      if z[0] == DQUOTE {
        assert Doubled(z, DQUOTE) + tail == [DQUOTE, DQUOTE] + next;
        ReadPair(acc, pc, ppc, lines, sep, next);
        pc', ppc' := ReadDoubled(z[1..], acc + [z[0]], 0, pc, lines, sep, tail);
      } else {
        assert Doubled(z, DQUOTE) + tail == [z[0]] + next;
        ReadOrdinary(z[0], acc, pc, ppc, lines, sep, next);
        pc', ppc' := ReadDoubled(z[1..], acc + [z[0]], z[0], pc, lines + Bump(z[0], LF), sep, tail);
      }
    }
  }

  // What is left to read once the text of a quoted field has been read.
  lemma QuotedText(z: Text, sep: Byte, tail: Text) returns (pc: int, ppc: int)
    requires PlainSep(sep)
    ensures History(z, pc, ppc) && pc != DQUOTE && ppc != DQUOTE
    ensures ReadField([DQUOTE] + (Doubled(z, DQUOTE) + tail), sep, LF)
         == ReadQuoted(tail, z, pc, ppc, Count(LF, z), sep, LF)
  {
    hide Doubled, Count, ReadQuoted;
    assert ([DQUOTE] + (Doubled(z, DQUOTE) + tail))[1..] == Doubled(z, DQUOTE) + tail;
    pc, ppc := ReadDoubled(z, [], 0, 0, 0, sep, tail);
    assert [] + z == z;
  }

  // A quote after the text, and any other character.
  lemma QuoteAfter(z: Text, pc: int, ppc: int, lines: nat, sep: Byte, t: Text)
    requires History(z, pc, ppc) && pc != DQUOTE
    ensures ReadQuoted([DQUOTE] + t, z, pc, ppc, lines, sep, LF)
         == ReadQuoted(t, z + [DQUOTE], DQUOTE, pc, lines, sep, LF)
  {
    ReadQuotedStep([DQUOTE] + t, z, pc, ppc, lines, sep, LF);
    assert ([DQUOTE] + t)[1..] == t;
    hide ReadQuoted, StripToQuote;
  }

  // A separator, a line feed or the end of the file right after that quote.
  lemma QuoteCloses(z: Text, pc: int, lines: nat, sep: Byte, t: Text)
    requires History(z + [DQUOTE], DQUOTE, pc) && PlainSep(sep) && (t == [] || t[0] == sep || t[0] == LF)
    ensures ReadQuoted(t, z + [DQUOTE], DQUOTE, pc, lines, sep, LF) ==
            if t == [] then Field(Some(z), EOF, [], lines)
            else Field(Some(z), t[0], t[1..], lines + Bump(t[0], LF))
  {
    ReadQuotedStep(t, z + [DQUOTE], DQUOTE, pc, lines, sep, LF);
    assert (z + [DQUOTE])[..|z|] == z;
    hide ReadQuoted;
  }

  lemma QuotedThen(z: Text, sep: Byte, t: Text)
    requires PlainSep(sep) && (t == [] || t[0] == sep || t[0] == LF)
    ensures ReadField([DQUOTE] + Doubled(z, DQUOTE) + [DQUOTE] + t, sep, LF) ==
            if t == [] then Field(Some(z), EOF, [], Count(LF, z))
            else Field(Some(z), t[0], t[1..], Count(LF, z) + Bump(t[0], LF))
  {
    hide ReadField, ReadQuoted, Doubled, Count;
    var pc, ppc := QuotedText(z, sep, [DQUOTE] + t);
    QuoteAfter(z, pc, ppc, Count(LF, z), sep, t);
    QuoteCloses(z, pc, Count(LF, z), sep, t);
    QuotedRegroup(Doubled(z, DQUOTE), [DQUOTE], t);
  }

  lemma QuotedRegroup(d: Text, a: Text, b: Text)
    ensures [DQUOTE] + d + a + b == [DQUOTE] + (d + (a + b))
  {
  }

  lemma QuotedThenCrLf(z: Text, sep: Byte, rest: Text)
    requires PlainSep(sep)
    ensures ReadField([DQUOTE] + Doubled(z, DQUOTE) + [DQUOTE] + ([CR, LF] + rest), sep, LF)
         == Field(Some(z), LF, rest, Count(LF, z) + 1)
  {
    hide ReadField, ReadQuoted, Doubled, Count, StripToQuote;
    var t1, t2 := [CR, LF] + rest, [LF] + rest;
    var pc, ppc := QuotedText(z, sep, [DQUOTE] + t1);
    QuoteAfter(z, pc, ppc, Count(LF, z), sep, t1);
    QuotedRegroup(Doubled(z, DQUOTE), [DQUOTE], t1);
    var acc := z + [DQUOTE];
    ReadQuotedStep(t1, acc, DQUOTE, pc, Count(LF, z), sep, LF);
    assert t1[1..] == t2 && t2[1..] == rest;
    ReadQuotedStep(t2, acc + [CR], CR, DQUOTE, Count(LF, z), sep, LF);
    StripBackTwo(z);
  }

  // A quote that is never closed: the text up to the end of the file.
  lemma UnclosedQuote(z: Text, sep: Byte)
    requires PlainSep(sep)
    ensures ReadField([DQUOTE] + Doubled(z, DQUOTE), sep, LF) == Field(Some(z), EOF, [], Count(LF, z))
  {
    hide ReadField, ReadQuoted, Doubled, Count, StripToQuote;
    var pc, ppc := QuotedText(z, sep, []);
    assert Doubled(z, DQUOTE) + [] == Doubled(z, DQUOTE);
    ReadQuotedStep([], z, pc, ppc, Count(LF, z), sep, LF);
  }

  // A quote before an ordinary character closes nothing; it is text.
  lemma StrayQuote(z: Text, x: Byte, sep: Byte, rest: Text)
    requires PlainSep(sep) && x != DQUOTE && x != sep && x != LF && x != CR
    ensures ReadField([DQUOTE] + Doubled(z, DQUOTE) + [DQUOTE] + ([x] + ([DQUOTE] + ([sep] + rest))), sep, LF)
         == Field(Some(z + [DQUOTE] + [x]), sep, rest, Count(LF, z))
  {
    hide ReadField, ReadQuoted, Doubled, Count;
    var t3 := [sep] + rest;
    var t2 := [DQUOTE] + t3;
    var t1 := [x] + t2;
    var pc, ppc := QuotedText(z, sep, [DQUOTE] + t1);
    QuoteAfter(z, pc, ppc, Count(LF, z), sep, t1);
    QuotedRegroup(Doubled(z, DQUOTE), [DQUOTE], t1);
    var acc := z + [DQUOTE];
    ReadQuotedStep(t1, acc, DQUOTE, pc, Count(LF, z), sep, LF);
    assert t1[1..] == t2 && t3[1..] == rest;
    QuoteAfter(acc + [x], x, DQUOTE, Count(LF, z), sep, t3);
    QuoteCloses(acc + [x], x, Count(LF, z), sep, t3);
  }

  lemma StripBackTwo(z: Text)
    ensures StripToQuote(z + [DQUOTE] + [CR]) == z
  {
    var acc := z + [DQUOTE];
    assert (acc + [CR])[..|z| + 1] == acc && acc[..|z|] == z;
  }

  // Bytes that never need quoting pass through the plain reader unchanged.
  lemma {:induction false} ReadPlainPrefix(z: Text, acc: Text, sep: Byte, tail: Text)
    requires forall i :: 0 <= i < |z| ==> z[i] != sep && z[i] != LF
    ensures ReadPlain(z + tail, acc, sep, LF) == ReadPlain(tail, acc + z, sep, LF)
    decreases |z|
  {
    if z == [] {
      assert z + tail == tail && acc + z == acc;
    } else {
      assert (z + tail)[1..] == z[1..] + tail;
      assert acc + z == (acc + [z[0]]) + z[1..];
      ReadPlainPrefix(z[1..], acc + [z[0]], sep, tail);
    }
  }

  lemma {:induction false} CountAbsent(x: int, z: Text)
    requires forall i :: 0 <= i < |z| ==> z[i] != x
    ensures Count(x, z) == 0
    decreases |z|
  {
    if z != [] { CountAbsent(x, z[1..]); }
  }

  // Text that the reader takes as it is, up to the separator or row end.
  predicate Readable(z: Text, sep: Byte) {
    && (z == [] || z[0] != DQUOTE)
    && forall i :: 0 <= i < |z| ==> z[i] != sep && z[i] != LF
  }

  predicate EndsInCr(z: Text) {
    z != [] && z[|z| - 1] == CR
  }

  lemma UnquotedIsReadable(z: Text, sep: Byte)
    requires !NeedsQuoting(z, [sep])
    ensures Readable(z, sep) && z != [] && !EndsInCr(z)
  {
    forall i | 0 <= i < |z| ensures z[i] != sep && !NeedCsvQuote(z[i]) {
      assert !ForcesQuote(z, i, [sep]);
    }
  }

  lemma PlainThenSep(z: Text, sep: Byte, rest: Text)
    requires PlainSep(sep) && Readable(z, sep)
    ensures ReadField(z + ([sep] + rest), sep, LF) == Field(Some(z), sep, rest, 0)
  {
    ReadPlainPrefix(z, [], sep, [sep] + rest);
    assert [] + z == z && ([sep] + rest)[1..] == rest;
  }

  lemma PlainThenCrLf(z: Text, sep: Byte, rest: Text)
    requires PlainSep(sep) && Readable(z, sep)
    ensures ReadField(z + ([CR, LF] + rest), sep, LF) == Field(Some(z), LF, rest, 1)
  {
    var zc := z + [CR];
    assert forall i :: 0 <= i < |zc| ==> zc[i] != sep && zc[i] != LF;
    assert z + ([CR, LF] + rest) == zc + ([LF] + rest);
    ReadPlainPrefix(zc, [], sep, [LF] + rest);
    assert [] + zc == zc && ([LF] + rest)[1..] == rest;
    assert zc[..|z|] == z;
  }

  lemma PlainThenLf(z: Text, sep: Byte, rest: Text)
    requires PlainSep(sep) && Readable(z, sep) && !EndsInCr(z)
    ensures ReadField(z + ([LF] + rest), sep, LF) == Field(Some(z), LF, rest, 1)
  {
    ReadPlainPrefix(z, [], sep, [LF] + rest);
    assert [] + z == z && ([LF] + rest)[1..] == rest;
  }

  lemma PlainThenEnd(z: Text, sep: Byte)
    requires PlainSep(sep) && Readable(z, sep) && z != []
    ensures ReadField(z, sep, LF) == Field(Some(z), EOF, [], 0)
  {
    ReadPlainPrefix(z, [], sep, []);
    assert [] + z == z && z + [] == z;
  }

  // One text, inside a row, at its end and at the end of the file, comes back
  // unchanged.
  lemma FieldRoundTrip(z: Text, sep: Byte, rest: Text)
    requires PlainSep(sep)
    ensures var e := EncodeField(z, [sep]);
            && ReadField(e + [sep] + rest, sep, LF) == Field(Some(z), sep, rest, Count(LF, z))
            && ReadField(e + [CR, LF] + rest, sep, LF) == Field(Some(z), LF, rest, Count(LF, z) + 1)
            && ReadField(e + [LF] + rest, sep, LF) == Field(Some(z), LF, rest, Count(LF, z) + 1)
            && ReadField(e, sep, LF) == Field(Some(z), EOF, [], Count(LF, z))
  {
    if NeedsQuoting(z, [sep]) {
      QuotedRoundTrip(z, sep, rest);
    } else {
      UnquotedIsReadable(z, sep);
      TextReadsBack(z, sep, rest);
    }
    hide ReadField, Doubled, Count;
  }

  lemma QuotedRoundTrip(z: Text, sep: Byte, rest: Text)
    requires PlainSep(sep)
    ensures var e := [DQUOTE] + Doubled(z, DQUOTE) + [DQUOTE];
            && ReadField(e + [sep] + rest, sep, LF) == Field(Some(z), sep, rest, Count(LF, z))
            && ReadField(e + [CR, LF] + rest, sep, LF) == Field(Some(z), LF, rest, Count(LF, z) + 1)
            && ReadField(e + [LF] + rest, sep, LF) == Field(Some(z), LF, rest, Count(LF, z) + 1)
            && ReadField(e, sep, LF) == Field(Some(z), EOF, [], Count(LF, z))
  {
    hide ReadField, Doubled, Count;
    var e := [DQUOTE] + Doubled(z, DQUOTE) + [DQUOTE];
    QuotedThen(z, sep, [sep] + rest);
    QuotedThenCrLf(z, sep, rest);
    QuotedThen(z, sep, [LF] + rest);
    QuotedThen(z, sep, []);
    Assoc(e, [sep], rest);
    Assoc(e, [CR, LF], rest);
    Assoc(e, [LF], rest);
    assert e + [] == e && ([sep] + rest)[1..] == rest && ([LF] + rest)[1..] == rest;
  }

  lemma TextReadsBack(z: Text, sep: Byte, rest: Text)
    requires PlainSep(sep) && Readable(z, sep)
    ensures Count(LF, z) == 0
    ensures ReadField(z + [sep] + rest, sep, LF) == Field(Some(z), sep, rest, 0)
    ensures ReadField(z + [CR, LF] + rest, sep, LF) == Field(Some(z), LF, rest, 1)
    ensures !EndsInCr(z) ==> ReadField(z + [LF] + rest, sep, LF) == Field(Some(z), LF, rest, 1)
    ensures z != [] ==> ReadField(z, sep, LF) == Field(Some(z), EOF, [], 0)
  {
    hide ReadField;
    CountAbsent(LF, z);
    PlainThenSep(z, sep, rest);
    PlainThenCrLf(z, sep, rest);
    if !EndsInCr(z) { PlainThenLf(z, sep, rest); }
    if z != [] { PlainThenEnd(z, sep); }
    Assoc(z, [sep], rest);
    Assoc(z, [CR, LF], rest);
    Assoc(z, [LF], rest);
  }

  // A quoted field is shorter than what was read to find its end.
  lemma {:induction false} QuotedShrinks(s: Text, acc: Text, pc: int, ppc: int, lines: nat, sep: Byte)
    requires History(acc, pc, ppc)
    ensures var f := ReadQuoted(s, acc, pc, ppc, lines, sep, LF);
            f.text.Some? && (f.term != EOF ==> |f.text.value| + |f.rest| + 2 <= |acc| + |s|)
    decreases |s|
  {
    ReadQuotedStep(s, acc, pc, ppc, lines, sep, LF);
    hide ReadQuoted;
    var c := if s == [] then EOF else s[0];
    if c == DQUOTE && pc == DQUOTE {
      QuotedShrinks(s[1..], acc, 0, ppc, lines + Bump(c, LF), sep);
    } else if ClosesField(c, pc, ppc, sep, LF) {
      StripShortens(acc);
    } else if s != [] {
      QuotedShrinks(s[1..], acc + [s[0]], c, pc, lines + Bump(c, LF), sep);
    }
  }

  lemma {:induction false} StripShortens(acc: Text)
    requires DQUOTE in acc
    ensures |StripToQuote(acc)| < |acc|
    decreases |acc|
  {
    var k := |acc| - 1;
    if acc[k] != DQUOTE { StripShortens(acc[..k]); }
  }

  // An unquoted field ends at the first separator or line feed.
  lemma {:induction false} PlainStops(s: Text, acc: Text, sep: Byte, k: nat)
    requires k < |s| && (s[k] == sep || s[k] == LF)
    ensures var f := ReadPlain(s, acc, sep, LF);
            f.text.Some? && |f.text.value| <= |acc| + k
    decreases |s|
  {
    if s[0] != sep && s[0] != LF { PlainStops(s[1..], acc + [s[0]], sep, k - 1); }
  }

  // The text that stands for NULL comes back exactly when it starts with no
  // quote and holds neither the separator nor a line feed; before a bare LF it
  // must not end in CR, and at the end of the file it must not be empty.
  lemma NullReadsBack(z: Text, sep: Byte, rest: Text)
    requires PlainSep(sep)
    ensures ReadField(z + [sep] + rest, sep, LF) == Field(Some(z), sep, rest, 0) <==> Readable(z, sep)
    ensures ReadField(z + [CR, LF] + rest, sep, LF) == Field(Some(z), LF, rest, 1) <==> Readable(z, sep)
    ensures ReadField(z + [LF] + rest, sep, LF) == Field(Some(z), LF, rest, 1) <==> Readable(z, sep) && !EndsInCr(z)
    ensures ReadField(z, sep, LF) == Field(Some(z), EOF, [], 0) <==> Readable(z, sep) && z != []
  {
    Assoc(z, [sep], rest);
    Assoc(z, [CR, LF], rest);
    Assoc(z, [LF], rest);
    if Readable(z, sep) {
      TextReadsBack(z, sep, rest);
      if EndsInCr(z) { CrIsLost(z, sep, rest); }
      hide ReadField;
    } else {
      UnreadableLost(z, sep, [sep] + rest, rest);
      UnreadableLost(z, sep, [CR, LF] + rest, rest);
      UnreadableLost(z, sep, [LF] + rest, rest);
      UnreadableAtEnd(z, sep);
      hide ReadField;
    }
  }

  lemma CrIsLost(z: Text, sep: Byte, rest: Text)
    requires PlainSep(sep) && Readable(z, sep) && EndsInCr(z)
    ensures ReadField(z + ([LF] + rest), sep, LF).text != Some(z)
  {
    ReadPlainPrefix(z, [], sep, [LF] + rest);
    assert [] + z == z;
  }

  lemma UnreadableLost(z: Text, sep: Byte, tail: Text, rest: Text)
    requires !Readable(z, sep) && |tail| <= |rest| + 2
    ensures var f := ReadField(z + tail, sep, LF);
            f.text == Some(z) && f.rest == rest ==> f.term == EOF
  {
    hide ReadQuoted, ReadPlain;
    var s := z + tail;
    if z != [] && z[0] == DQUOTE {
      QuotedShrinks(s[1..], [], 0, 0, 0, sep);
    } else {
      var k :| 0 <= k < |z| && (z[k] == sep || z[k] == LF);
      PlainStops(s, [], sep, k);
    }
  }

  // At the end of the file a text that is not readable does not come back either:
  // an opening quote is dropped, and a separator ends the field.
  lemma UnreadableAtEnd(z: Text, sep: Byte)
    requires !Readable(z, sep)
    ensures ReadField(z, sep, LF).text != Some(z)
  {
    hide ReadQuoted, ReadPlain;
    if z != [] && z[0] == DQUOTE {
      QuotedNoLonger(z[1..], [], 0, 0, 0, sep);
    } else {
      var k :| 0 <= k < |z| && (z[k] == sep || z[k] == LF);
      PlainStops(z, [], sep, k);
    }
  }

  lemma {:induction false} QuotedNoLonger(s: Text, acc: Text, pc: int, ppc: int, lines: nat, sep: Byte)
    requires History(acc, pc, ppc)
    ensures var f := ReadQuoted(s, acc, pc, ppc, lines, sep, LF);
            f.text.Some? && |f.text.value| <= |acc| + |s|
    decreases |s|
  {
    ReadQuotedStep(s, acc, pc, ppc, lines, sep, LF);
    hide ReadQuoted;
    var c := if s == [] then EOF else s[0];
    if c == DQUOTE && pc == DQUOTE {
      QuotedNoLonger(s[1..], acc, 0, ppc, lines + Bump(c, LF), sep);
    } else if ClosesField(c, pc, ppc, sep, LF) {
      StripShortens(acc);
    } else if s != [] {
      QuotedNoLonger(s[1..], acc + [s[0]], c, pc, lines + Bump(c, LF), sep);
    }
  }

  // NULL comes back as its text, wherever in a row it stands.
  ghost predicate NullOk(style: Style)
    requires PlainStyle(style)
  {
    Readable(style.nullValue, style.colSep[0]) && (style.rowSep == [LF] ==> !EndsInCr(style.nullValue))
  }

  ghost predicate WritableRow(row: seq<Option<Text>>, style: Style)
    requires PlainStyle(style)
  {
    None in row ==> NullOk(style)
  }

  // A value comes back as shown, whether it is a text or NULL.
  lemma ValueRoundTrip(v: Option<Text>, style: Style, rest: Text)
    requires PlainStyle(style) && (v.None? ==> NullOk(style))
    ensures var z, sep := Shown(v, style.nullValue), style.colSep[0];
            var e := EncodeValue(v, style);
            && ReadField(e + style.colSep + rest, sep, LF) == Field(Some(z), sep, rest, Count(LF, z))
            && ReadField(e + style.rowSep + rest, sep, LF) == Field(Some(z), LF, rest, Count(LF, z) + 1)
            && (e != [] ==> ReadField(e, sep, LF) == Field(Some(z), EOF, [], Count(LF, z)))
  {
    var sep := style.colSep[0];
    assert style.colSep == [sep];
    if v.None? {
      TextReadsBack(style.nullValue, sep, rest);
    } else {
      FieldRoundTrip(v.value, sep, rest);
    }
    hide ReadField, EncodeField, Count;
  }

  lemma EncodeRowSplit(row: seq<Option<Text>>, style: Style, rest: Text)
    requires row != []
    ensures var first := EncodeValue(row[0], style);
            && (style.rowSep != [] && style.colSep != [] ==> EncodeRow(row, style) != [])
            && EncodeRow(row, style) + rest ==
               if |row| == 1 then first + style.rowSep + rest
               else first + style.colSep + (EncodeRow(row[1..], style) + rest)
  {
    hide EncodeValue;
    if |row| > 1 { Assoc(EncodeValue(row[0], style) + style.colSep, EncodeRow(row[1..], style), rest); }
  }

  // A written row reads back as one record with the same fields, ended by LF.
  lemma {:induction false} RowRoundTrip(row: seq<Option<Text>>, style: Style, rest: Text)
    requires PlainStyle(style) && row != [] && WritableRow(row, style)
    ensures ReadRecord(EncodeRow(row, style) + rest, style.colSep[0], LF)
         == Record(ShownRow(row, style.nullValue), LF, rest)
    decreases |row|
  {
    EncodeRowSplit(row, style, rest);
    if |row| == 1 {
      ValueRoundTrip(row[0], style, rest);
      assert ShownRow(row[1..], style.nullValue) == [];
    } else {
      ValueRoundTrip(row[0], style, EncodeRow(row[1..], style) + rest);
      RowRoundTrip(row[1..], style, rest);
    }
    hide EncodeRow, EncodeValue, ReadField;
  }

  // The last row of a file may lack its end: it reads back the same, unless its
  // last value is written as nothing at all.
  function EncodeLast(row: seq<Option<Text>>, style: Style): Text
    requires row != []
  {
    if |row| == 1 then EncodeValue(row[0], style)
    else EncodeValue(row[0], style) + style.colSep + EncodeLast(row[1..], style)
  }

  lemma {:induction false} LastRowRoundTrip(row: seq<Option<Text>>, style: Style)
    requires PlainStyle(style) && row != [] && WritableRow(row, style)
    requires EncodeValue(row[|row| - 1], style) != []
    ensures EncodeRow(row, style) == EncodeLast(row, style) + style.rowSep
    ensures ReadRecord(EncodeLast(row, style), style.colSep[0], LF)
         == Record(ShownRow(row, style.nullValue), EOF, [])
    decreases |row|
  {
    if |row| == 1 {
      ValueRoundTrip(row[0], style, []);
      assert ShownRow(row[1..], style.nullValue) == [];
    } else {
      ValueRoundTrip(row[0], style, EncodeLast(row[1..], style));
      LastRowRoundTrip(row[1..], style);
    }
    hide EncodeValue, ReadField;
  }

  lemma ReadAllStep(s: Text, sep: Byte, f: Field)
    requires s != [] && ReadField(s, sep, LF) == f
    ensures ReadAll(s, sep, LF) == [(f.text, f.term)] + ReadAll(f.rest, sep, LF)
  {
    hide ReadField;
  }

  lemma {:induction false} RowEventsRoundTrip(row: seq<Option<Text>>, style: Style, rest: Text)
    requires PlainStyle(style) && row != [] && WritableRow(row, style)
    ensures ReadAll(EncodeRow(row, style) + rest, style.colSep[0], LF)
         == RowEvents(row, style.colSep[0], style.nullValue) + ReadAll(rest, style.colSep[0], LF)
    decreases |row|
  {
    hide EncodeRow, EncodeValue, ReadField, ReadAll, RowEvents, Count;
    var sep, z := style.colSep[0], Shown(row[0], style.nullValue);
    var s := EncodeRow(row, style) + rest;
    EncodeRowSplit(row, style, rest);
    if |row| == 1 {
      ValueRoundTrip(row[0], style, rest);
      ReadAllStep(s, sep, Field(Some(z), LF, rest, Count(LF, z) + 1));
      RowEventsCons(row, sep, style.nullValue, ReadAll(rest, sep, LF));
    } else {
      var more := EncodeRow(row[1..], style) + rest;
      ValueRoundTrip(row[0], style, more);
      ReadAllStep(s, sep, Field(Some(z), sep, more, Count(LF, z)));
      RowEventsRoundTrip(row[1..], style, rest);
      RowEventsCons(row, sep, style.nullValue, ReadAll(rest, sep, LF));
    }
  }

  lemma RowEventsCons(row: seq<Option<Text>>, sep: Byte, nullValue: Text, tail: seq<(Option<Text>, int)>)
    requires row != []
    ensures var z := Some(Shown(row[0], nullValue));
            RowEvents(row, sep, nullValue) + tail ==
            if |row| == 1 then [(z, LF)] + tail
            else [(z, sep)] + (RowEvents(row[1..], sep, nullValue) + tail)
  {
    if |row| == 1 {
      assert RowEvents(row[1..], sep, nullValue) == [];
    } else {
      Assoc([(Some(Shown(row[0], nullValue)), sep as int)], RowEvents(row[1..], sep, nullValue), tail);
    }
  }

  // The main theorem: every table of texts and NULLs, written with LF or CRLF row
  // ends and read with LF as row separator, comes back field by field, with the
  // separator as terminator inside a row, LF at its end and end of file after
  // the last row. A NULL comes back as the text that stands for it.
  lemma {:induction false} TableRoundTrip(table: seq<seq<Option<Text>>>, style: Style)
    requires PlainStyle(style)
    requires forall r :: 0 <= r < |table| ==> table[r] != [] && WritableRow(table[r], style)
    ensures ReadAll(EncodeTable(table, style), style.colSep[0], LF)
         == TableEvents(table, style.colSep[0], style.nullValue)
    decreases |table|
  {
    if table != [] {
      RowEventsRoundTrip(table[0], style, EncodeTable(table[1..], style));
      TableRoundTrip(table[1..], style);
    }
    hide EncodeRow, ReadField;
  }

  // The file a, followed by nothing has two fields, the second NULL.
  lemma TrailingSeparatorExample(sep: Byte)
    requires PlainSep(sep) && sep != 97
    ensures ReadRecord([97, sep], sep, LF) == Record([Some([97]), None], EOF, [])
  {
    PlainThenSep([97], sep, []);
    assert [97] + ([sep] + []) == [97, sep];
    NothingLeft(sep, LF);
    hide ReadField;
  }

  // ------------------------------------------------------ which fields are bare

  // With a one-byte separator a text is written as it is exactly when it is not
  // empty and all its bytes are visible ASCII other than the quotes and the
  // separator; every other text is put in quotes.
  lemma BareExactly(z: Text, sep: Byte)
    ensures (EncodeField(z, [sep]) == z <==>
             z != [] && forall i :: 0 <= i < |z| ==> 33 <= z[i] <= 126 && z[i] !in [34, 39, sep])
    ensures EncodeField(z, [sep]) != z ==>
              |EncodeField(z, [sep])| >= 2 && EncodeField(z, [sep])[0] == 34
  {
    if NeedsQuoting(z, [sep]) {
      DoubledNoShorter(z, DQUOTE);
      if z != [] {
        var i :| 0 <= i < |z| && ForcesQuote(z, i, [sep]);
        assert !(33 <= z[i] <= 126 && z[i] !in [34, 39, sep]);
      }
    } else {
      forall i | 0 <= i < |z| ensures 33 <= z[i] <= 126 && z[i] !in [34, 39, sep] {
        assert !ForcesQuote(z, i, [sep]);
      }
    }
  }

  // A longer separator forces quotes only on a text that starts with it.
  lemma BareWithLongSeparator(z: Text, colSep: Text)
    requires |colSep| > 1
    ensures EncodeField(z, colSep) == z <==>
            z != [] && !(colSep <= z) && forall i :: 0 <= i < |z| ==> 33 <= z[i] <= 126 && z[i] !in [34, 39]
  {
    if NeedsQuoting(z, colSep) {
      DoubledNoShorter(z, DQUOTE);
      if z != [] {
        var i :| 0 <= i < |z| && ForcesQuote(z, i, colSep);
        assert colSep <= z || !(33 <= z[i] <= 126 && z[i] !in [34, 39]);
      }
    } else {
      forall i | 0 <= i < |z| ensures 33 <= z[i] <= 126 && z[i] !in [34, 39] {
        assert !ForcesQuote(z, i, colSep);
      }
      assert !ForcesQuote(z, 0, colSep);
    }
  }

  lemma {:induction false} DoubledNoShorter(z: Text, q: Byte)
    ensures |Doubled(z, q)| >= |z|
    decreases |z|
  {
    if z != [] { DoubledNoShorter(z[1..], q); }
  }
}
